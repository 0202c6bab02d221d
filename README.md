# Multi-step contact form and FAQ page, modelled in Dafny

This project models the client-side behaviour of a small website's two
scripts. `form.js` runs a multi-step contact form:

- validation of each control, with messages chosen by the control's name;
- `next` and `back` buttons that move between the form's steps;
- a submit that validates everything and then swaps the form for a success message;
- a drag-and-drop PDF upload slot;
- custom select widgets that stand in for native `<select>` elements.

`main.js` renders up to five FAQ posts as an accordion, toggles which
entry is open, and runs the mobile menu button. When the fetch fails, it
writes a failure text into the loading element it has just hidden.

The page is modelled as plain state: strings, flags, sequences and indices.
Each handler is a method that changes that state. The decisions the
handlers take are pure functions, and the properties are lemmas about
those functions.

| file | module | what it holds |
|---|---|---|
| `js_text.dfy` | `JsText` | `String.prototype.trim`, `[A-Za-z]+` and the regex `.` as functions on `seq<char>` |
| `field_validation.dfy` | `FieldValidation` | the message selection and verdict of `validateField`, the social-link pattern, and the view it writes |
| `step_navigation.dfy` | `StepNavigation` | the form as a class: `validateField`'s page updates, the `allValid` loops of `goToNextStep` and `submitForm`, and the back button |
| `file_drop.dfy` | `FileDrop` | the upload slot as a class: dragover, dragleave, drop and change |
| `custom_select.dfy` | `CustomSelect` | one custom select as a class over two `array<bool>` (aria-selected and highlight), with the keyup clamp |
| `faq_accordion.dfy` | `FaqAccordion` | the FAQ page as a class: the render loop, the fetch failure branch, and `toggleaccordion` |
| `mobile_menu.dfy` | `MobileMenu` | the menu button: a click as a function and as an in-place method |

## Model

| member | source | states |
|---|---|---|
| `JsText.Trim` | assets/javascript/form.js:31 | `value.trim()`: the value without its leading and trailing ECMAScript white space and line terminators (its properties are the lemmas below) |
| `JsText.IsAsciiLetters` | assets/javascript/form.js:59-60 | the test of `/^[A-Za-z]+$/`: one or more characters, each an ASCII letter |
| `JsText.TrimStartDropsBlankPrefix` | assets/javascript/form.js:31 | the leading part `trim` drops is all white space, and what it keeps does not start with white space |
| `JsText.TrimEndDropsBlankSuffix` | assets/javascript/form.js:31 | the trailing part `trim` drops is all white space, and what it keeps does not end with white space |
| `JsText.TrimKeepsCore` | assets/javascript/form.js:57 | `trim` returns a contiguous piece of the value; it neither starts nor ends with white space, and only white space lies around it |
| `JsText.TrimEmptyIffBlank` | assets/javascript/form.js:31-40 | `value.trim()` is falsy exactly when every character of the value is ECMAScript white space or a line terminator |
| `FieldValidation.Text` | assets/javascript/form.js:29-64 | a message's text is the empty string (which clears the custom error) exactly for `NoMessage`; every real message is non-empty |
| `FieldValidation.GreedyMatch` | assets/javascript/form.js:23-25 | one left-to-right pass of the pattern for host h: take `https://` or `http://` when present, then `www.` when present, then expect h followed by a tail without line terminators |
| `FieldValidation.SocialMatches` | assets/javascript/form.js:50 | `urlPatterns[name].test(value)`: the pass above with the host `<name>.com/` |
| `FieldValidation.SchemeIsGreedy` | assets/javascript/form.js:23-25 | when text that cannot start a scheme follows the optional `https?://` group, that group is the one a left-to-right match takes |
| `FieldValidation.WwwIsGreedy` | assets/javascript/form.js:23-25 | when a platform host follows the optional `www.` group, that group is the one a left-to-right match takes |
| `FieldValidation.HostIsPlatformHost` | assets/javascript/form.js:23-25 | the host text of linkedin, twitter and facebook starts with a letter that neither optional group can start with |
| `FieldValidation.MatchUsesGreedyGroups` | assets/javascript/form.js:23-25 | when the host starts with such a letter, every way the pattern matches uses the greedy choice of both optional groups |
| `FieldValidation.GreedyMatchIffSomeMatch` | assets/javascript/form.js:23-25 | for such a host, the left-to-right pass accepts exactly the strings that some choice of the two optional groups matches |
| `FieldValidation.SocialMatchesIffPattern` | assets/javascript/form.js:22-26 | the single pass `SocialMatches` accepts exactly the strings that some choice of the two optional groups, then `<name>.com/`, then a tail without line terminators matches |
| `FieldValidation.SwitchMessage` | assets/javascript/form.js:29-54 | the message the `switch` on `field.name` picks: the "Please enter your ..." message for a blank text or social field, "Please upload a brief description." without a file, the invalid-link message for a non-matching social link, and no message otherwise |
| `FieldValidation.CustomMessage` | assets/javascript/form.js:29-66 | the message after the content checks for a non-blank value override the switch: the letters test for names, the type-mismatch flag for email, the 10 GiB size for the brief description |
| `FieldValidation.Verdict` | assets/javascript/form.js:68-73 | `checkValidity()` after `setCustomValidity`: no custom message and every native constraint holds |
| `FieldValidation.ValidationMessage` | assets/javascript/form.js:74 | `field.validationMessage`: the custom message's text when one is set, otherwise the browser's message for the failing native constraint |
| `FieldValidation.Render` | assets/javascript/form.js:68-83 | the custom validity is the chosen message; the field's and group's error classes are set exactly when the verdict fails; the error text is empty on success, otherwise the custom message, or the native message when there is no custom message |
| `FieldValidation.BlankRequiredFieldFails` | assets/javascript/form.js:29-41 | a blank first name, last name, email, date of birth or social link gets its own "Please enter your ..." message and fails |
| `FieldValidation.NameRule` | assets/javascript/form.js:57-60 | a non-blank first or last name passes the custom check exactly when the untrimmed value is one or more ASCII letters; otherwise the message is "Please use alphabet characters only."; the verdict is that check and native validity together |
| `FieldValidation.LeadingSpaceNameRefused` | assets/javascript/form.js:59-60 | " Anne" is refused because the letters check sees the untrimmed value |
| `FieldValidation.HyphenatedNameRefused` | assets/javascript/form.js:59-60 | "Anne-Marie" is refused |
| `FieldValidation.NameExampleAccepted` | assets/javascript/form.js:59-60 | "Anne" passes when the native constraints hold |
| `FieldValidation.SocialRule` | assets/javascript/form.js:45-53 | a non-blank social link has no custom message exactly when the platform's pattern matches; otherwise the message is "Please enter a valid <name> profile link."; the verdict is that match and native validity together |
| `FieldValidation.LinkedInExampleMatches` | assets/javascript/form.js:23 | "linkedin.com/in/x" matches the LinkedIn pattern |
| `FieldValidation.OtherSiteRefused` | assets/javascript/form.js:23 | "example.com/x" does not match the LinkedIn pattern |
| `FieldValidation.EmailRule` | assets/javascript/form.js:61-62 | for a non-blank email, the custom message is "Please enter a valid email address." exactly when the browser reports a type mismatch |
| `FieldValidation.DobRule` | assets/javascript/form.js:39-40 | a non-blank date of birth has no custom message, so its verdict is the browser's min/max and other native checks |
| `FieldValidation.NoDescriptionFails` | assets/javascript/form.js:42-43 | with no file the brief description fails with "Please upload a brief description." |
| `FieldValidation.DescriptionSizeRule` | assets/javascript/form.js:63-64 | with a file, only the first file's size matters; up to and including 10 x 1024^3 bytes passes, and anything larger gets "Please select a file that is 10 GB or smaller." |
| `FieldValidation.OtherFieldNative` | assets/javascript/form.js:29-54 | a control the switch does not name has no custom message; only the native constraints decide |
| `StepNavigation.SumPrefix` | assets/javascript/form.js:101 | step s's controls, from Sum(sizes[..s]) on, fit within the form |
| `StepNavigation.StepIndex` | assets/javascript/form.js:120 | every control of the form belongs to some step, which lies between that step's first control and one past its last |
| `StepNavigation.NextStep` | assets/javascript/form.js:110-113 | the step after `next`: the following one when all controls are valid and it exists, otherwise the same |
| `StepNavigation.PreviousStep` | assets/javascript/form.js:166-170 | the step after `back`: the one before when it exists, otherwise the same |
| `StepNavigation.NextMovesOneOrStays` | assets/javascript/form.js:110-113 | `next` stays within the steps; it moves by exactly one exactly when all fields are valid and a next step exists, and otherwise stays put |
| `StepNavigation.BackUndoesNext` | assets/javascript/form.js:164-171 | `back` right after a successful `next` returns to the same step |
| `StepNavigation.RunStaysInRange` | assets/javascript/form.js:98-114 | whatever sequence of `next` and `back` presses, the active step stays a real step |
| `StepNavigation.RepeatedNextClampsAtLast` | assets/javascript/form.js:110-113 | k presses of `next` with valid fields reach step active + k, stopping at the last step |
| `StepNavigation.MultiStepForm.constructor` | assets/javascript/form.js:98-100 | the form starts on the first step, visible, with no error shown |
| `StepNavigation.MultiStepForm.Input` | assets/javascript/form.js:142-148 | the user edits control k, which is the edit the blur and change listeners react to; only that control's contents change |
| `StepNavigation.MultiStepForm.ValidateField` | assets/javascript/form.js:68-83 | returns the verdict for control k and replaces only that control's view with the rendered one |
| `StepNavigation.RangeValidIffAll` | assets/javascript/form.js:102-108 | the `allValid` flag, folded over the controls lo..k-1, is true exactly when every one of them passes |
| `StepNavigation.RangeDone` | assets/javascript/form.js:102-108 | once the loop has reached the end of the range, it has rendered every control of the range, left the others alone, and its flag is the conjunction of their verdicts |
| `StepNavigation.MultiStepForm.ValidateRange` | assets/javascript/form.js:102-108 | validates every control of the range without short-circuiting; the flag is true exactly when all of them pass; no other view changes |
| `StepNavigation.MultiStepForm.AllValidIffEveryStepValid` | assets/javascript/form.js:119-135 | all controls of the form pass exactly when every step's controls pass |
| `StepNavigation.MultiStepForm.Next` | assets/javascript/form.js:98-114 | renders every control of the active step; the new active step is `NextStep` of the old one and that step's verdict; other views are unchanged |
| `StepNavigation.MultiStepForm.Back` | assets/javascript/form.js:164-171 | moves to the previous step without validating, and stays on the first step |
| `StepNavigation.MultiStepForm.Submit` | assets/javascript/form.js:119-135 | renders every control; if all pass, hides the form and shows the success message; otherwise both stay as they were |
| `FileDrop.DropAccepts` | assets/javascript/form.js:209 | the drop handler's test: the type is `application/pdf` and the size at most 1024^3 bytes |
| `FileDrop.ChangeError` | assets/javascript/form.js:225-233 | the change handler's error is empty exactly for a PDF of at most 1 GiB; the type is checked before the size |
| `FileDrop.FileLabel` | assets/javascript/form.js:90-93 | the file-name display ends with the file's name |
| `FileDrop.AcceptedFilePassesValidator` | assets/javascript/form.js:209 | a file the upload slot accepts also passes the brief description's 10 GiB rule in `validateField` |
| `FileDrop.FileUpload.constructor` | assets/javascript/form.js:183-189 | the slot starts empty with no texts and no highlight |
| `FileDrop.FileUpload.DragOver` | assets/javascript/form.js:191-194 | dragover adds the drop zone's "active" class |
| `FileDrop.FileUpload.DragLeave` | assets/javascript/form.js:197-200 | dragleave removes it |
| `FileDrop.FileUpload.Drop` | assets/javascript/form.js:203-219 | every drop removes "active"; an empty drop changes nothing else; otherwise only the first file counts; an accepted file becomes the slot's only file, clears the error and is named in the display; a rejected one leaves the slot and the display alone and sets "Please provide a PDF file up to 1GB." |
| `FileDrop.FileUpload.Change` | assets/javascript/form.js:222-234 | the chosen file's name is shown before any check; a rejection, by type first and then by size, empties the slot with its own message; an accepted file clears the error and stays |
| `FileDrop.FileUpload.Choose` | assets/javascript/form.js:221-222 | picking files in the dialog replaces the input's files, which `change` then reads |
| `FileDrop.ChooseTooLarge` | assets/javascript/form.js:221-234 | picking a PDF one byte over 1 GiB and running `change` empties the slot, shows the file's name and reports "The file must be less than 1GB." |
| `FileDrop.DropAndChangeAgree` | assets/javascript/form.js:209 | drop and change accept exactly the same files |
| `FileDrop.OneGiBBoundary` | assets/javascript/form.js:228 | a PDF of exactly 1024^3 bytes is accepted, one byte more is refused, and change then reports "The file must be less than 1GB." |
| `CustomSelect.KeyTarget` | assets/javascript/form.js:284-294 | ArrowDown and ArrowUp move the index by one and stop at the ends without wrapping; other keys keep it; a valid index stays valid |
| `CustomSelect.RepeatedDownClamps` | assets/javascript/form.js:289-291 | k ArrowDowns from option i reach min(i + k, n - 1) |
| `CustomSelect.RepeatedUpClamps` | assets/javascript/form.js:292-294 | k ArrowUps from option i reach max(i - k, 0) |
| `CustomSelect.ArrowExamples` | assets/javascript/form.js:289-291 | with three options, two ArrowDowns from the first reach the last and a third stays there; with nothing selected, ArrowDown picks the first |
| `CustomSelect.SelectWidget.constructor` | assets/javascript/form.js:249-259 | the widget gets tab index 0 and the native select -1; no option is marked, because the initial `updateValue` is commented out |
| `CustomSelect.SelectWidget.Highlight` | assets/javascript/form.js:322-330 | after `highlightOption`, exactly the given option is highlighted |
| `CustomSelect.SelectWidget.UpdateValue` | assets/javascript/form.js:332-347 | after `updateValue(i)`, exactly option i is aria-selected and highlighted, the native index is i, and the shown text is option i's text |
| `CustomSelect.SelectWidget.Deactivate` | assets/javascript/form.js:301-308 | an active widget hides its list and becomes inactive; an inactive widget is left as it was |
| `CustomSelect.SelectWidget.Toggle` | assets/javascript/form.js:317-320 | the option list flips between hidden and shown |
| `CustomSelect.SelectWidget.Focus` | assets/javascript/form.js:310-315 | an inactive widget deactivates every widget of the group and then becomes active; an already active widget changes nothing; no committed value changes |
| `CustomSelect.SelectWidget.Keyup` | assets/javascript/form.js:283-297 | re-commits `KeyTarget` of the current native index with `updateValue`; Escape also deactivates the widget |
| `FaqAccordion.DecimalString` | assets/javascript/main.js:50 | the decimal form of an index is non-empty, and has one digit exactly below 10 |
| `FaqAccordion.DecimalStringInjective` | assets/javascript/main.js:50 | different indices have different decimal forms |
| `FaqAccordion.EntryIdsDistinct` | assets/javascript/main.js:50-63 | two entries never share a trigger id or a panel id |
| `FaqAccordion.RenderedEntriesCrossReference` | assets/javascript/main.js:50-67 | trigger k's aria-controls is panel k's id and panel k's aria-labelledby is trigger k's id, and they name no other entry |
| `FaqAccordion.RenderTrigger` | assets/javascript/main.js:49-53 | the button of entry k: id `accordion-trigger-k`, active and expanded only for k = 0, controlling `accordion-panel-k`, showing the post's title |
| `FaqAccordion.RenderPanel` | assets/javascript/main.js:62-68 | the panel of entry k: id `accordion-panel-k`, labelled by `accordion-trigger-k`, hidden except for k = 0, showing the post's body |
| `FaqAccordion.ShowOnly` | assets/javascript/main.js:94-96 | after a toggle, exactly the panel at the index is visible and nothing else about the panels changes |
| `FaqAccordion.ExpandOnly` | assets/javascript/main.js:94-98 | after a toggle, exactly the trigger at the index is expanded and active, and nothing else about the triggers changes |
| `FaqAccordion.ToggleIdempotent` | assets/javascript/main.js:94-99 | toggling the open entry again keeps it open and changes nothing |
| `FaqAccordion.LastToggleWins` | assets/javascript/main.js:94-99 | toggling i and then j leaves the same state as toggling j |
| `FaqAccordion.RenderTriggers` | assets/javascript/main.js:44-53 | one trigger per shown post, in order, entry k built from post k |
| `FaqAccordion.RenderPanels` | assets/javascript/main.js:44-68 | one panel per shown post, in order, entry k built from post k |
| `FaqAccordion.ShownCount` | assets/javascript/main.js:42 | `data.slice(0, 5)` keeps all posts when there are at most five, and five otherwise |
| `FaqAccordion.RenderedStartsWithFirstOpen` | assets/javascript/main.js:51-52 | freshly rendered entries are already in the state `toggleaccordion(0)` gives: only entry 0 is open |
| `FaqAccordion.FaqPage.constructor` | assets/javascript/main.js:25-27 | the page starts with the loading message shown and no entries |
| `FaqAccordion.FaqPage.OnFetch` | assets/javascript/main.js:31-88 | every outcome hides the loading element. An empty list shows the no-FAQ container and renders nothing. A non-empty list appends the first five posts, in input order, as entries numbered from 0. A failure sets the text "Failed to load posts." |
| `FaqAccordion.FaqPage.ToggleAccordion` | assets/javascript/main.js:90-100 | the panels become `ShowOnly` of the old panels and the triggers `ExpandOnly` of the old triggers |
| `FaqAccordion.ToggleAfterRender` | assets/javascript/main.js:79 | after rendering a list and clicking entry i, entry i is the only visible panel and the only expanded trigger |
| `MobileMenu.IsExpanded` | assets/javascript/main.js:18 | the handler reads the menu as expanded only when the attribute is the text "true"; a missing attribute or any other text reads as collapsed |
| `MobileMenu.BoolText` | assets/javascript/main.js:19 | a boolean is stored as the attribute text "true" exactly when it is true |
| `MobileMenu.Click` | assets/javascript/main.js:17-21 | a click flips the expanded state (a missing attribute counts as false), always leaves the attribute set, and toggles the nav class |
| `MobileMenu.ClickTwiceRestores` | assets/javascript/main.js:17-21 | two clicks restore the expanded state and the nav class, and leave the attribute as "true" or "false" |
| `MobileMenu.MissingAttributeOpens` | assets/javascript/main.js:18-19 | a button without the attribute opens the menu on the first click |
| `MobileMenu.Menu.constructor` | assets/javascript/main.js:13-15 | the button and the nav start in the given state |
| `MobileMenu.Menu.OnClick` | assets/javascript/main.js:17-21 | the click handler changes the state exactly as `Click` says |

## Left out

- Event wiring and DOM lookup are not modelled: the load listener (form.js:4-10), `setupFieldValidationListeners` (form.js:140-157) and the DOMContentLoaded bootstrap (main.js:1-11). Each handler is a method that is called directly.
- Browser constraint validation is an input. Each `Field` carries the email `typeMismatch` flag, whether every other native constraint holds, and the browser's message for a failing one.
- `validationMessage` with a custom error set is taken to be the custom message, which is what browsers show.
- `setDobMinMax` (form.js:237-243) is left out. It depends on the clock, the time zone and `toISOString`. The date of birth's range check is part of the native validity input.
- `fetch`, JSON parsing and `console.error` (main.js:29-31, 84) are left out. The outcome of the fetch is an input: a list of posts or a failure.
- `FaqAccordion.FaqPage.OnFetch`: an exception thrown inside the success handler also reaches the `catch` branch; the model does not produce that case.
- DataTransfer construction, `innerHTML` copying and CSS classes other than the flags above are left out. The label shows the option's text. Panel roles and icons are not modelled.
- Steps are assumed to be consecutive sibling elements, with nothing else before the first step or after the last. This is how `nextElementSibling` and `previousElementSibling` find steps either side.
- Every control is modelled with its own `.form-group`. When several controls share a group (radio buttons), the later controls' messages and classes overwrite the earlier ones on the page; the model does not capture this.
- `FileDrop.FileUpload.Change` requires a chosen file. The handler would throw on `file.name` (form.js:223-224) if there were none.
- `CustomSelect.SelectWidget.UpdateValue` and `CustomSelect.SelectWidget.Keyup` require the committed index to be a real option. `optionList[index]` is undefined otherwise, for example with a native index of -1 and any key but ArrowDown (form.js:341, 344).
- `getIndex` (form.js:349-353) is the read of `nativeIndex` at the start of `Keyup`.
- The brief description's `value` and `files` are independent fields of `Field`. In the browser, a file input's value is non-blank exactly when it holds a file.
- The `.` of the social patterns is modelled exactly: the tail may not contain a line terminator.
- Page state that the source shares is held twice in the model, and no method keeps the two copies equal:
  - The FileList of `#briefDescription` is `FileDrop.FileUpload.files` and also the `files` of the form's brief-description `Field`. The two are linked only by `FileDrop.AcceptedFilePassesValidator`, at the level of functions.
  - The `.error-message` span of the brief description's form group (form.js:187-188) is `FileDrop.FileUpload.errorText` and also the `errorText` of that field's `FieldView` in `MultiStepForm.views` (form.js:70-71, 74, 79). The model therefore does not capture that a drop or change message shows in the same span `validateField` writes, nor that the next `validateField` call (on blur, on `next` or on submit) overwrites it.
  - A native `<select>` inside a `.form-group` is one of the controls the steps validate (form.js:101, 120). Its selected index is `CustomSelect.SelectWidget.nativeIndex` and also the value of its `Field`.
- JavaScript strings are sequences of UTF-16 code units, while the model's strings are sequences of Unicode scalar values. `trim`, `[A-Za-z]` and `.` agree on every well-formed string; only lone surrogates, which `char` cannot hold, are not modelled.
