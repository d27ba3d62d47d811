# EPrints browser scripts: document list, upload progress and small helpers

This project models the client-side JavaScript of the EPrints repository
software that carries real logic. Its core is the documents component's list
reconciliation, and around it sit the helpers and small state machines that
can be stated once their DOM and AJAX edges are made into inputs:

- the documents component (`Component_Documents`): its ordered list of
  `{id, div, placement}` entries, the update against the server's list
  (removal, refresh requests, length check, placement and the reordering
  loop), the removal of one entry, and the success and 404 branches of a
  refresh;
- the file-upload progress: the rewrite of the form action with a
  `progress_id`, the percentage and bar offset, when polling stops, and the
  stop handler; the `EPrintsProgressBar` widget with its `progress`,
  `current` and timer;
- `human_filesize` and `generate_uuid` (with the random digits as input);
- the phrase editor: the entity decoder, the add-phrase guards, the form
  disabling and enabling, and the reset button;
- the autocompleter: three definitions of `onKeyPress`, the callback's query
  string, the popup width, and the two `updateElement` definitions that parse
  `for:value|block:<basename>:<id>` item ids and fill in the target;
- the page workarounds: the drag depth counter and the IE version flags;
- the button callback registry with its short-circuit AND;
- the component field's action-handler registry, action names and request
  parameters;
- the visibility toggles (`EPJS_toggle_type`, `EPJS_toggle`, the slide's
  decision) and the two definitions of `ep_showTab`;
- the metadata field's input bits and lookup rows;
- the package search's debounce guard;
- the two Enter-key handlers.

Files are modelled one module each: `component_documents.dfy`,
`upload_method_file.dfy`, `progress_bar.dfy`, `extras.dfy`, `phrase_edit.dfy`,
`autocomplete_keys.dfy` (all three `onKeyPress` definitions),
`autocomplete.dfy` (the rest of 70_autocomplete.js and z_autocomplete.js),
`workarounds.dfy`, `button_pushed.dfy`, `component_field.dfy`, `toggle.dfy`
(50_toggle.js and the toggle and comparisons of eprints.js), `tabs.dfy` (both
`ep_showTab`), `metafield.dfy`, `epm_available.dfy` and `enter_keys.dfy`.
Shared pieces are `text.dfy` (JavaScript's global `replace`, `split` on one
character, and number-to-string), `entities.dfy` (the staged entity encoding
that the decoders invert), `dom.dfy` (an element with the style and
attributes the scripts touch) and `wrappers.dfy` (`Option`).

Where the scripts update objects in place, the model does too: the document
list, the upload form and poller, the progress bar and its timer, the
autocompleter's flags, the button registry, the handler table that all fields share, the metadata
field, the search input, the drag guard and the DOM elements are classes whose
methods state the whole new state. Each method is tied to a specification
function or to the properties proved about it. Chains of expressions are
functions with lemmas.

JavaScript details are written out:

- a regular expression replace with `g` (and `i`) scans left to right;
- `split` keeps empty pieces;
- an index past the end is `undefined`, and `undefined` used as a map key is
  the string "undefined";
- `undefined + undefined` is `NaN`;
- `"A" & 3` is 0;
- `Math.round` rounds halves up;
- `Math.floor` of an exact quotient is an integer floor;
- a `switch` case without `return` falls into the next one.

Numbers are exact (`int` and `real`), not IEEE doubles.

## Model

| member | source | states |
|---|---|---|
| ComponentDocuments.DocumentList.constructor | lib/static/javascript/auto/89_component_documents.js:16-23 | one entry per panel, in panel order, with the panel's id and div and no placement; the list holds distinct ids (`Valid`) iff the panels do |
| ComponentDocuments.DocumentList.RemoveDocument | lib/static/javascript/auto/89_component_documents.js:200-202 | `remove_document(i)` drops entry i and keeps the others in order |
| ComponentDocuments.DocumentList.ScanForRemoval | lib/static/javascript/auto/89_component_documents.js:212-217 | one step of the removal scan: a listed entry stays; an unlisted one is removed and the index steps back |
| ComponentDocuments.DocumentList.RemovalStep | lib/static/javascript/auto/89_component_documents.js:211-217 | one pass of the removal loop extends the kept prefix by the next entry exactly when the server lists its id |
| ComponentDocuments.DocumentList.RemoveDeleted | lib/static/javascript/auto/89_component_documents.js:211-217 | the removal phase leaves exactly `Retained(old list, json)` |
| ComponentDocuments.Retained | lib/static/javascript/auto/89_component_documents.js:211-217 | the kept entries are never more than the entries |
| ComponentDocuments.RetainedMembers | lib/static/javascript/auto/89_component_documents.js:211-217 | an entry is kept iff it was in the list and the server lists its id |
| ComponentDocuments.RetainedIdsListed | lib/static/javascript/auto/89_component_documents.js:211-217 | every id left after removal is one the server lists |
| ComponentDocuments.RetainedAppend | lib/static/javascript/auto/89_component_documents.js:211-217 | removal is piecewise, so the kept entries keep their relative order |
| ComponentDocuments.RetainedStep | lib/static/javascript/auto/89_component_documents.js:212-217 | the kept prefix grows by the next entry exactly when its id is listed |
| ComponentDocuments.RetainedAll | lib/static/javascript/auto/89_component_documents.js:211-217 | when every id is listed, nothing is removed |
| ComponentDocuments.RetainedKeepsDistinct | lib/static/javascript/auto/89_component_documents.js:211-217 | removal keeps the ids distinct |
| ComponentDocuments.DocumentList.RequestMissing | lib/static/javascript/auto/89_component_documents.js:218-224 | the refreshes requested are the server ids not held, in server order, and the list is not changed |
| ComponentDocuments.Missing | lib/static/javascript/auto/89_component_documents.js:218-224 | no more refreshes than server ids |
| ComponentDocuments.MissingMembers | lib/static/javascript/auto/89_component_documents.js:218-224 | an id is requested iff the server lists it and it is not held |
| ComponentDocuments.NewIdForcesMismatch | lib/static/javascript/auto/89_component_documents.js:218-227 | a server id not held means the held list is shorter, so the length check throws |
| ComponentDocuments.MatchingListsAreDistinct | lib/static/javascript/auto/89_component_documents.js:225-227 | when the check passes with nothing missing, the server's ids are distinct too |
| ComponentDocuments.DistinctIdsList | lib/static/javascript/auto/89_component_documents.js:210-257 | entries have distinct ids iff their id list has no repeats |
| ComponentDocuments.DistinctCardinality | lib/static/javascript/auto/89_component_documents.js:225-227 | a list has at most as many distinct elements as positions, and exactly as many iff it has no repeats |
| ComponentDocuments.ShorterWhenSubset | lib/static/javascript/auto/89_component_documents.js:225-227 | distinct ids all listed by the server, with one server id missing, are fewer than the server's |
| ComponentDocuments.DocumentList.AssignPlacements | lib/static/javascript/auto/89_component_documents.js:229-235 | ids and divs are kept; each listed entry gets a placement at a server index holding its id (the last such), and unlisted entries are untouched |
| ComponentDocuments.DocumentList.Reorder | lib/static/javascript/auto/89_component_documents.js:236-257 | from placements that form a permutation, the loop ends with every entry at its placement and the entries only rearranged |
| ComponentDocuments.DocumentList.MoveToPlacement | lib/static/javascript/auto/89_component_documents.js:237-256 | one splice keeps the placements a permutation and the entries before i in place, only rearranges the entries, and strictly raises the progress weight |
| ComponentDocuments.Move | lib/static/javascript/auto/89_component_documents.js:254-255 | a move keeps the length |
| ComponentDocuments.SplicesAreMove | lib/static/javascript/auto/89_component_documents.js:254-255 | `splice(i, 1)` then `splice(p, 0, left)` is the move of entry i to p |
| ComponentDocuments.MoveAt | lib/static/javascript/auto/89_component_documents.js:254-255 | each position of the moved list holds the entry it came from |
| ComponentDocuments.MoveIsPermutation | lib/static/javascript/auto/89_component_documents.js:254-255 | a move only rearranges: the multiset of entries is unchanged |
| ComponentDocuments.MoveIncreasesWeight | lib/static/javascript/auto/89_component_documents.js:236-257 | each move strictly increases the weight of the positions already in place, so the loop terminates |
| ComponentDocuments.WeightBounds | lib/static/javascript/auto/89_component_documents.js:236-257 | the termination weight is bounded by powers of two |
| ComponentDocuments.WeightSameRange | lib/static/javascript/auto/89_component_documents.js:236-257 | the weight of a range depends only on the entries in it |
| ComponentDocuments.MoveKeepsPermutation | lib/static/javascript/auto/89_component_documents.js:236-257 | a move keeps the placements a permutation of the positions |
| ComponentDocuments.NotAheadIsInPlace | lib/static/javascript/auto/89_component_documents.js:237 | when the loop skips entry i, that entry is already in place |
| ComponentDocuments.PlacedIsPermutation | lib/static/javascript/auto/89_component_documents.js:229-235 | distinct entries placed at indices of an equally long server list have placements forming a permutation |
| ComponentDocuments.Find | lib/static/javascript/auto/89_component_documents.js:278-283 | the first entry with the id, or the length when there is none |
| ComponentDocuments.FindUnique | lib/static/javascript/auto/89_component_documents.js:278-283 | with distinct ids, the entry found for an id is the only one |
| ComponentDocuments.RemoveKeepsDistinct | lib/static/javascript/auto/89_component_documents.js:200-202 | removing an entry keeps the ids distinct |
| ComponentDocuments.ReorderedMatchesServer | lib/static/javascript/auto/89_component_documents.js:229-257 | after reordering, entry k has server id k and keeps the div it had |
| ComponentDocuments.DocumentList.UpdateDocuments | lib/static/javascript/auto/89_component_documents.js:210-258 | `update_documents`: the refreshes requested; the check passes iff the kept entries are as many as the server's; on failure the list is the kept entries; on success the ids are the server's, in order, each at its placement and with its div |
| ComponentDocuments.DocumentList.RefreshSucceeded | lib/static/javascript/auto/89_component_documents.js:272-302 | a refresh of a held id replaces only the first such entry's div; an unknown id is appended at the end; distinct ids stay distinct |
| ComponentDocuments.DocumentList.RefreshFailed | lib/static/javascript/auto/89_component_documents.js:303-311 | a 404 removes the first entry with the id; any other status changes nothing; distinct ids stay distinct |
| UploadMethodFile.SplitTwo | lib/static/javascript/auto/88_uploadmethod_file.js:37 | `split('#', 2)` gives one or two pieces |
| UploadMethodFile.RewriteWithoutFragment | lib/static/javascript/auto/88_uploadmethod_file.js:36-41 | an action without `#` gets the parameter at its end |
| UploadMethodFile.RewriteKeepsFragment | lib/static/javascript/auto/88_uploadmethod_file.js:36-41 | the parameter goes before the first `#`, and the fragment after it is kept |
| UploadMethodFile.RewriteDropsAfterSecondHash | lib/static/javascript/auto/88_uploadmethod_file.js:37-40 | a second `#` and everything after it are dropped |
| UploadMethodFile.SeparatorChoice | lib/static/javascript/auto/88_uploadmethod_file.js:38-39 | the address is kept and followed by `?` iff it has no `?`, by `&` iff it has one, then `progress_id=<uuid>` |
| UploadMethodFile.UploadForm.constructor | lib/static/javascript/auto/88_uploadmethod_file.js:9-36 | the file input's value and the form's target, action and inputs as found |
| UploadMethodFile.UploadForm.FileChangeAsWritten | lib/static/javascript/auto/88_uploadmethod_file.js:34-55 | the chosen file is submitted into the frame, with the rewritten action and the `component` input; afterwards the file input is cleared, the action and inputs are back and the target is gone |
| UploadMethodFile.UploadForm.FileChange | lib/static/javascript/auto/88_uploadmethod_file.js:34-55 | the same submission; afterwards the file input is cleared and the target, action and inputs are as found |
| UploadMethodFile.TargetLostExample | lib/static/javascript/auto/88_uploadmethod_file.js:34-54 | a `_blank` target is lost by the code as written |
| UploadMethodFile.TargetKeptExample | lib/static/javascript/auto/88_uploadmethod_file.js:34-54 | the corrected handler keeps a `_blank` target |
| UploadMethodFile.Percent | lib/static/javascript/auto/88_uploadmethod_file.js:80-81 | the floor of `100 * received / size`, stated by its bracketing |
| UploadMethodFile.Offset | lib/static/javascript/auto/88_uploadmethod_file.js:82 | the floor of `200 * received / size - 200`, stated by its bracketing |
| UploadMethodFile.PercentBounds | lib/static/javascript/auto/88_uploadmethod_file.js:80-81 | for received ≤ size the percent is in 0..100, and it is 100 iff the upload is complete |
| UploadMethodFile.OffsetBounds | lib/static/javascript/auto/88_uploadmethod_file.js:82-83 | for received ≤ size the offset is in -200..0, and it is 0 iff the upload is complete |
| UploadMethodFile.OffsetTracksPercent | lib/static/javascript/auto/88_uploadmethod_file.js:80-83 | the offset is twice the percent less 200, up to one pixel |
| UploadMethodFile.OffsetMonotone | lib/static/javascript/auto/88_uploadmethod_file.js:82 | the bar never moves back as more bytes arrive |
| UploadMethodFile.UploadProgress.constructor | lib/static/javascript/auto/88_uploadmethod_file.js:57-60 | no bar style, empty info, polling |
| UploadMethodFile.UploadProgress.StartRequest | lib/static/javascript/auto/88_uploadmethod_file.js:66-68 | the base style is written only when the bar has no style |
| UploadMethodFile.UploadProgress.Answered | lib/static/javascript/auto/88_uploadmethod_file.js:74-85 | a report sets the info line and bar offset, and polling stops iff a poller is given and the upload is complete; a non-JSON answer stops the poller |
| UploadMethodFile.FileStop | lib/static/javascript/auto/88_uploadmethod_file.js:93-104 | the progress element is stopped and removed iff it exists; a given docid is refreshed once per instance, none otherwise |
| ProgressBar.Bar.constructor | lib/static/javascript/auto/85_progress.js:13-32 | `current` and `progress` start at 0; bar, border and text options default to `progress_bar.png`, `progress_border.png` and 0; the image source is the border |
| ProgressBar.Bar.Update | lib/static/javascript/auto/85_progress.js:39-51 | a missing or out-of-range value changes nothing; an accepted one stores the progress and alt text, stops the old timer, starts a fresh one and ticks |
| ProgressBar.Bar.Tick | lib/static/javascript/auto/85_progress.js:52-65 | with width 0 nothing changes; otherwise `current` becomes the target, the offset is `current - width`, and the timer stops only on a tick that finds `current` already there |
| ProgressBar.Bar.Onload | lib/static/javascript/auto/85_progress.js:33-38 | the background is set and the stored progress applied again, so an earlier update is not lost |
| ProgressBar.Round | lib/static/javascript/auto/85_progress.js:57 | `Math.round`: the integer with r ≤ x + 0.5 < r + 1 |
| ProgressBar.TargetBounds | lib/static/javascript/auto/85_progress.js:57 | for progress in [0, 1] the target lies in 0..width |
| ProgressBar.OffsetBounds | lib/static/javascript/auto/85_progress.js:57-64 | the offset lies in [-width, 0]; it is -width at progress 0 and 0 at progress 1 |
| ProgressBar.TargetIsNearest | lib/static/javascript/auto/85_progress.js:57 | the target is within half a pixel of `progress * width` |
| ProgressBar.Timer.constructor | lib/static/javascript/auto/85_progress.js:49 | a new timer is running |
| Extras.SizePartsChoice | lib/static/javascript/auto/45_extras.js:51-74 | the unit is the first whose quotient is below 4096, with terabytes at most; every smaller unit was at least 4096 |
| Extras.SizePartsBracket | lib/static/javascript/auto/45_extras.js:56-71 | n·1024^k ≤ size < (n+1)·1024^k |
| Extras.SizePartsUnits | lib/static/javascript/auto/45_extras.js:53-69 | bytes are used iff size < 4096, shown as `<size>b`; any larger unit shows at least 4 |
| Extras.SizePartsIsQuot | lib/static/javascript/auto/45_extras.js:56-71 | the number shown is the quotient after k floored divisions |
| Extras.QuotBracket | lib/static/javascript/auto/45_extras.js:56-71 | repeated floored division by 1024 brackets the size |
| Extras.BracketStep | lib/static/javascript/auto/45_extras.js:56-71 | one more division keeps the bracket in a unit 1024 times larger |
| Extras.SmallSizesDistinct | lib/static/javascript/auto/45_extras.js:53-54 | distinct byte counts below 4096 are shown differently |
| Extras.GenerateUuid | lib/static/javascript/auto/45_extras.js:17-27 | 32 hexadecimal digits from the drawn ones, with digit 12 `4` and digit 16 the variant digit |
| Extras.VariantIndexMatches | lib/static/javascript/auto/45_extras.js:24 | `(s[16] & 3) \| 8` equals 8 plus the digit mod 4, where a letter counts as 0 |
| Extras.VariantDigits | lib/static/javascript/auto/45_extras.js:24 | the variant digit is one of 8, 9, A, B, and a drawn letter gives 8 |
| PhraseEdit.DecodeEscape | lib/static/javascript/auto/70_phraseedit.js:2-10 | decoding undoes the escaping of `"`, `'`, `<`, `>` and `&` exactly |
| PhraseEdit.DecodeIsTableDecode | lib/static/javascript/auto/70_phraseedit.js:2-10 | the five replaces are the table decoder run in table order |
| PhraseEdit.HtmlEntitiesWellFormed | lib/static/javascript/auto/70_phraseedit.js:4-8 | the five entities in the decoder's order form a well-formed table |
| PhraseEdit.NoDoubleDecoding | lib/static/javascript/auto/70_phraseedit.js:6-8 | `&amp;lt;` decodes to `&lt;`, not `<` |
| PhraseEdit.DecodeWithoutAmpersand | lib/static/javascript/auto/70_phraseedit.js:2-10 | text without `&` is returned unchanged |
| PhraseEdit.DecodeShrinks | lib/static/javascript/auto/70_phraseedit.js:2-10 | decoding never lengthens the text |
| PhraseEdit.PhraseAdder.constructor | lib/static/javascript/auto/70_phraseedit.js:12-75 | the add controls start enabled |
| PhraseEdit.PhraseAdder.AddPhrase | lib/static/javascript/auto/70_phraseedit.js:12-75 | an empty id or an existing one is rejected with nothing disabled or sent; otherwise both controls are disabled and the id and new text are sent; always false |
| PhraseEdit.PhraseAdder.AddFailed | lib/static/javascript/auto/70_phraseedit.js:32-41 | failure and exception enable both controls again |
| PhraseEdit.PhraseAdder.AddSucceeded | lib/static/javascript/auto/70_phraseedit.js:42-66 | success enables the controls and clears the new-id input iff there is a response |
| PhraseEdit.DisableForm | lib/static/javascript/auto/70_phraseedit.js:122-129 | every child node ends disabled |
| PhraseEdit.EnableForm | lib/static/javascript/auto/70_phraseedit.js:131-138 | every child node ends enabled |
| PhraseEdit.PhraseEditor.constructor | lib/static/javascript/auto/70_phraseedit.js:151-155 | the form remembers the decoded text and the textarea starts with it |
| PhraseEdit.PhraseEditor.Reset | lib/static/javascript/auto/70_phraseedit.js:175-179 | the reset button puts the decoded original back |
| Entities.PassStep | lib/static/javascript/auto/70_phraseedit.js:4-8 | each replace pass decodes its own entity of the staged encoding and nothing else |
| Entities.EncodeAfterAllPasses | lib/static/javascript/auto/70_phraseedit.js:4-8 | after the last pass nothing is left encoded |
| Entities.EntryFor | lib/static/javascript/auto/70_phraseedit.js:4-8 | the first table entry from k on that encodes a character |
| Entities.DecodeEncode | lib/static/javascript/auto/70_phraseedit.js:4-8 | for any well-formed table, the passes run in table order undo the encoding exactly |
| Text.ReplaceAllNoAmp | lib/static/javascript/auto/70_phraseedit.js:4-8 | a `&`-pattern replace leaves text without `&` unchanged |
| Text.ReplaceAllShrinks | lib/static/javascript/auto/70_phraseedit.js:4-8 | a replacement no longer than its pattern never lengthens the text |
| Text.ReplaceAllSkipsPlain | lib/static/javascript/auto/70_autocomplete.js:80-85 | text without `&` passes through and the rest is replaced after it |
| Text.ReplaceAllAtMatch | lib/static/javascript/auto/70_autocomplete.js:80-85 | an occurrence at the front is replaced |
| Text.ReplaceAllSkipsEntity | lib/static/javascript/auto/70_autocomplete.js:80-85 | an entity differing from the pattern in its second character is kept whole |
| Text.LowerAscii | lib/static/javascript/auto/70_autocomplete.js:80-85 | the `i` flag folds ASCII capitals to lower case and nothing else |
| Text.FirstIndexOf | lib/static/javascript/auto/88_uploadmethod_file.js:37 | the first occurrence of the separator, or the length |
| Text.Split | lib/static/javascript/auto/70_autocomplete.js:68 | `split` gives at least one piece and no piece holds the separator |
| Text.SplitAfterPiece | lib/static/javascript/auto/70_autocomplete.js:68 | a separator-free piece then the separator splits off as the first piece |
| Text.SplitWithoutSeparator | lib/static/javascript/auto/88_uploadmethod_file.js:37 | text without the separator is one piece |
| Text.FirstIndexAfterPiece | lib/static/javascript/auto/88_uploadmethod_file.js:37 | the first separator after a separator-free piece is at the piece's end |
| Text.JoinSplit | lib/static/javascript/auto/88_uploadmethod_file.js:37-40 | joining the pieces of a split gives the text back |
| Text.SplitJoin | lib/static/javascript/auto/88_uploadmethod_file.js:37-40 | splitting a join of separator-free pieces gives the pieces back |
| Text.NatDigits | lib/static/javascript/auto/45_extras.js:54 | the decimal digits of a natural number: non-empty, all digits |
| Text.DigitsValueOfNatDigits | lib/static/javascript/auto/45_extras.js:54 | reading the digits back gives the number |
| Text.Decimal | lib/static/javascript/auto/45_extras.js:54 | number-to-string: non-empty, the digits, with a minus sign iff negative |
| Text.NatDigitsInjective | lib/static/javascript/auto/45_extras.js:54 | different naturals have different digits |
| Text.DecimalInjective | lib/static/javascript/auto/45_extras.js:54 | different numbers are written differently |
| AutocompleteKeys.ReturnFallsThroughToEsc | lib/static/javascript/auto/70_autocomplete.js:7-14 | on an open list RETURN selects and stops, then does what ESC does: hide, stop, inactive |
| AutocompleteKeys.ArrowKeys | lib/static/javascript/auto/70_autocomplete.js:15-27 | LEFT and RIGHT do nothing; UP and DOWN move the mark and render, stopping the event iff it is the workaround version or WebKit |
| AutocompleteKeys.IgnoredKeys | lib/static/javascript/auto/70_autocomplete.js:29-31 | a closed list ignores TAB, RETURN and (for the workaround on WebKit) key 0 |
| AutocompleteKeys.OtherKeysAreTyping | lib/static/javascript/auto/70_autocomplete.js:33-38 | any other key marks changed and focused, calls `change` iff the version has it, clears the observer iff set, and sets a new one last |
| AutocompleteKeys.VariantsAgreeOnFlags | lib/static/javascript/auto/35_workarounds.js:14-50 | the workaround and 70_autocomplete.js leave the same flags, except WebKit key 0 on a closed list |
| AutocompleteKeys.VariantsDifferInChange | lib/static/javascript/auto/35_workarounds.js:14-50 | off UP and DOWN, their calls differ only by the `change` call |
| AutocompleteKeys.CloseThenReturnIsQuiet | lib/static/javascript/auto/75_workarounds.js:18-25 | after RETURN or ESC has closed the list, another RETURN does nothing |
| AutocompleteKeys.TypingKeepsActive | lib/static/javascript/auto/75_workarounds.js:14-50 | a key leaves the list active iff it was active and the key is neither RETURN nor ESC |
| AutocompleteKeys.Autocompleter.constructor | lib/static/javascript/auto/70_autocomplete.js:3-40 | all flags start false with no calls made |
| AutocompleteKeys.Autocompleter.OnKeyPress | lib/static/javascript/auto/75_workarounds.js:14-50 | the flags become, and the calls made are, those of the specification `KeyPress` for the given version |
| AutocompleteKeys.Autocompleter.Close | lib/static/javascript/auto/70_autocomplete.js:7-14 | the RETURN and ESC cases: optional select, hide, inactive |
| AutocompleteKeys.Autocompleter.MoveMark | lib/static/javascript/auto/70_autocomplete.js:18-27 | UP and DOWN: mark, render and the optional stop, flags unchanged |
| AutocompleteKeys.Autocompleter.Type | lib/static/javascript/auto/70_autocomplete.js:33-38 | the code after the switch |
| Autocomplete.InjectIsPairs | lib/static/javascript/auto/70_autocomplete.js:46-47 | the fold appends the `&<rel>=<value>` pairs in field order after the entry |
| Autocomplete.SplitPairs | lib/static/javascript/auto/70_autocomplete.js:46-48 | split on `&`, the query string gives back the entry and each pair, when no value holds `&` |
| Autocomplete.CallbackParamsShape | lib/static/javascript/auto/70_autocomplete.js:45-48 | the query string is the entry, the pairs, then `extra_params` |
| Autocomplete.InjectWidthsIsSum | lib/static/javascript/auto/z_autocomplete.js:9-10 | the fold adds every width to its start value |
| Autocomplete.SumAppend | lib/static/javascript/auto/z_autocomplete.js:9-10 | the widths of two groups of cells add up |
| Autocomplete.PopupWidthIsSum | lib/static/javascript/auto/z_autocomplete.js:9-17 | the popup width is the sum of the cell widths in pixels, at least any one cell |
| Autocomplete.ValueEntitiesWellFormed | lib/static/javascript/auto/70_autocomplete.js:80-85 | `&gt;`, `&lt;`, `&amp;` in that order form a well-formed table, ignoring case |
| Autocomplete.UnescapeEscaped | lib/static/javascript/auto/70_autocomplete.js:77-87 | unescaping undoes the escaping of `>`, `<` and `&`, with nothing unescaped twice |
| Autocomplete.UnescapeIsDecode | lib/static/javascript/auto/70_autocomplete.js:77-87 | the three replaces are the table decoder run in table order |
| Autocomplete.SplitId | lib/static/javascript/auto/70_autocomplete.js:68 | an id of four colon-free parts splits back into them |
| Autocomplete.ParseWellFormedId | lib/static/javascript/auto/70_autocomplete.js:67-76 | a four-part id targets the basename's prefix plus the id part in both versions; 70_autocomplete.js also accepts `block` |
| Autocomplete.MissingIdPart | lib/static/javascript/auto/z_autocomplete.js:28-30 | with no id part, 70_autocomplete.js uses the prefix alone and z_autocomplete.js appends "undefined" |
| Autocomplete.NotForRejected | lib/static/javascript/auto/70_autocomplete.js:69 | an id not starting with `for` raises an alert in 70_autocomplete.js and is skipped in z_autocomplete.js |
| Autocomplete.UpdateElement70 | lib/static/javascript/auto/70_autocomplete.js:63-105 | the loop over the items computes the page and the alerts of `Run70` |
| Autocomplete.UpdateElementZ | lib/static/javascript/auto/z_autocomplete.js:20-34 | the loop over the items computes the page of `RunZ` |
| Autocomplete.ParseZLooksUp | lib/static/javascript/auto/z_autocomplete.js:24-30 | a target is looked up iff the id is `for:value` with a basename or an id part; `block` and every other mode are skipped |
| Autocomplete.RunZLeavesOthers | lib/static/javascript/auto/z_autocomplete.js:23-33 | an element no item names is left as it was |
| Autocomplete.LastValueWinsZ | lib/static/javascript/auto/z_autocomplete.js:30-32 | the last value item that finds its target leaves there its inner HTML as it is, not unescaped |
| Autocomplete.BareValueParse | lib/static/javascript/auto/z_autocomplete.js:26-30 | the id `for:value` names nothing: NaN in z_autocomplete.js, the empty id in 70_autocomplete.js |
| Autocomplete.BareValueIdSkipped | lib/static/javascript/auto/70_autocomplete.js:71-76 | the item with id `for:value` leaves the page unchanged in both versions, with no alert |
| Autocomplete.RunKeepsElements | lib/static/javascript/auto/70_autocomplete.js:75-76 | no element is created or removed, in either version |
| Autocomplete.RunLeavesOthers | lib/static/javascript/auto/70_autocomplete.js:66-104 | an element no item names is left as it was |
| Autocomplete.RunAlerts | lib/static/javascript/auto/70_autocomplete.js:66-70 | every ill-formed id raises its alert, in order, and does not stop the items after it |
| Autocomplete.LastValueWins | lib/static/javascript/auto/70_autocomplete.js:77-87 | the last value item that finds its target leaves the target holding its unescaped text |
| Workarounds.Step | lib/static/javascript/auto/35_workarounds.js:58-81 | enter fires commence iff the depth was 0 and counts in; leave counts out and fires finish iff the depth reaches 0; drop resets and fires finish; all but leave are stopped |
| Workarounds.DragGuard.constructor | lib/static/javascript/auto/35_workarounds.js:58 | the depth starts at 0 and nothing is fired |
| Workarounds.DragGuard.Handle | lib/static/javascript/auto/35_workarounds.js:59-80 | a listener call moves the depth and fires what `Step` says |
| Workarounds.RunAppend | lib/static/javascript/auto/35_workarounds.js:59-80 | a run of events splits into its two parts |
| Workarounds.EnterLevels | lib/static/javascript/auto/35_workarounds.js:59-64 | entering n levels fires commence once, and only from depth 0 |
| Workarounds.LeaveLevels | lib/static/javascript/auto/35_workarounds.js:65-69 | leaving n levels from depth n fires finish once, at the last |
| Workarounds.NestedDrag | lib/static/javascript/auto/35_workarounds.js:59-69 | a nested enter and leave fires exactly commence then finish and returns to depth 0 |
| Workarounds.UnmatchedLeave | lib/static/javascript/auto/35_workarounds.js:66 | an unmatched leave drives the depth to -1, and the next enter fires no commence |
| Workarounds.MsieAt | lib/static/javascript/auto/35_workarounds.js:85 | `MSIE x.y;` at the start gives two non-empty digit groups |
| Workarounds.MsieVersion | lib/static/javascript/auto/35_workarounds.js:85-88 | the leftmost match's groups are digit strings |
| Workarounds.DigitRun | lib/static/javascript/auto/35_workarounds.js:85 | `\d+` matches the whole leading run of digits |
| Workarounds.DigitRunOf | lib/static/javascript/auto/35_workarounds.js:85 | a digit run ends at the first non-digit |
| Workarounds.MsieAtMatch | lib/static/javascript/auto/35_workarounds.js:85 | `MSIE x.y;` matches with groups x and y |
| Workarounds.MsieVersionSkips | lib/static/javascript/auto/35_workarounds.js:85 | text with no `M` followed by `S` cannot start a match |
| Workarounds.DigitsValueBound | lib/static/javascript/auto/35_workarounds.js:85 | n digits are worth less than 10^n |
| Workarounds.IeFlagDigits | lib/static/javascript/auto/35_workarounds.js:84-89 | IEn holds iff the first match has whole part n and an all-zero fraction |
| Workarounds.Version7Flags | lib/static/javascript/auto/35_workarounds.js:84-89 | a user agent whose first match reads `7.0` sets IE7 and not IE6 |
| Workarounds.Ie7Version | lib/static/javascript/auto/35_workarounds.js:84-89 | the version read from an IE 7 user agent is `7` and `0` |
| Workarounds.AtMostOneIeFlag | lib/static/javascript/auto/35_workarounds.js:84-89 | at most one IE flag is true |
| Workarounds.Ie7Example | lib/static/javascript/auto/35_workarounds.js:84-89 | an IE 7 user agent sets IE7 and not IE6 |
| Workarounds.FractionBounds | lib/static/javascript/auto/35_workarounds.js:85 | a fraction of fewer than 10^n over 10^n is in [0, 1), and 0 iff its digits are 0 |
| Workarounds.WholePlusFraction | lib/static/javascript/auto/35_workarounds.js:85 | a whole number plus a fraction in [0, 1) is whole iff the fraction is 0 |
| ButtonPushed.Approving | lib/static/javascript/auto/50_button_pushed.js:21-25 | the longest prefix of callbacks that all answer true |
| ButtonPushed.Registry.constructor | lib/static/javascript/auto/50_button_pushed.js:2 | no button has callbacks |
| ButtonPushed.Registry.Register | lib/static/javascript/auto/50_button_pushed.js:4-12 | the first registration creates the list, every one appends, and other buttons are unchanged |
| ButtonPushed.Registry.Pushed | lib/static/javascript/auto/50_button_pushed.js:14-27 | with no callbacks the push is allowed; otherwise it is allowed iff all answer true, and the callbacks after the first false one are never called |
| ComponentField.ActionName | lib/static/javascript/auto/87_component_field.js:145-147 | the action name starts with `_internal_` |
| ComponentField.ActionNameDistinguishesParam | lib/static/javascript/auto/87_component_field.js:145-147 | the name tells a missing parameter and each parameter apart |
| ComponentField.ModalActionWiring | lib/static/javascript/auto/87_component_field.js:71-92 | only elements with `data-internal` are wired; the event defaults to `click`; the handler gets the extra element iff it exists, else the element |
| ComponentField.HandlerTable.constructor | lib/static/javascript/auto/87_component_field.js:3 | the prototype's handler table starts empty |
| ComponentField.Field.constructor | lib/static/javascript/auto/87_component_field.js:3-14 | the field keeps its prefix and uses the one shared handler table |
| ComponentField.Field.GetParams | lib/static/javascript/auto/87_component_field.js:94-102 | `component` and `<prefix>_export=1` are set over the serialised form; nothing else changes |
| ComponentField.Field.Internal | lib/static/javascript/auto/87_component_field.js:209-230 | the parameters with the input's name set to 1 |
| ComponentField.Field.ReloadComponent | lib/static/javascript/auto/87_component_field.js:271-274 | the internal request names `_action_null` |
| ComponentField.Field.Save | lib/static/javascript/auto/87_component_field.js:276-278 | the internal request names `_internal_save` |
| ComponentField.Field.RegisterActionHandler | lib/static/javascript/auto/87_component_field.js:250-256 | a present action and handler are stored in the shared table, replacing an earlier one; otherwise nothing changes |
| ComponentField.Field.CallActionHandler | lib/static/javascript/auto/87_component_field.js:258-263 | a handler is called with the element iff the shared table has one for the action |
| ComponentField.SharedHandlerExample | lib/static/javascript/auto/87_component_field.js:250-263 | a handler registered through one field is called when another field performs the action |
| ComponentField.Field.ModalInternal | lib/static/javascript/auto/87_component_field.js:133-206 | the action name, `modal=1` and `export=1` are added to the parameters; the handler gets the action element if given, else the element |
| Toggle.NextDisplayCases | lib/static/javascript/auto/50_toggle.js:85-103 | `none` becomes the display type, the display type becomes `none`, and any other display follows `start_visible` |
| Toggle.ToggleTwice | lib/static/javascript/auto/50_toggle.js:87-103 | toggling twice from `none` or the display type restores it |
| Toggle.ToggleSettles | lib/static/javascript/auto/50_toggle.js:87-103 | after one toggle the display is `none` or the type, and each later toggle changes it |
| Toggle.ToggleType | lib/static/javascript/auto/50_toggle.js:81-104 | the element's display becomes the next display |
| Toggle.ToggleBlock | lib/static/javascript/auto/50_toggle.js:76-79 | `EPJS_toggle` is the `block` case |
| Toggle.ToggleSlide | lib/static/javascript/auto/50_toggle.js:10-74 | the slide collapses iff the element counts as visible; otherwise it is shown at height 0, 20 pixels narrower than its parent |
| Toggle.SlideEndsLikeToggle | lib/static/javascript/auto/50_toggle.js:12-23 | the slide's decision is the toggle's decision with `block` |
| Toggle.ToggleOld | lib/static/javascript/auto/eprints.js:2-24 | a visible element becomes `none`, any other the given display |
| Toggle.TogglesAgree | lib/static/javascript/auto/eprints.js:6-14 | the two definitions decide alike when the display asked for is not `none` |
| Toggle.LtIsSwappedGt | lib/static/javascript/auto/eprints.js:29-32 | `ep_lt` is `ep_gt` swapped, at most one holds, and neither iff equal |
| Tabs.FirstStyleless | lib/static/javascript/auto/eprints.js:39-43 | the first child without a style, or the length |
| Tabs.HidePanels | lib/static/javascript/auto/50_tabs.js:6-11 | every child with a style is hidden; the rest are unchanged |
| Tabs.DeselectTabs | lib/static/javascript/auto/50_tabs.js:13-21 | selected tabs become plain tabs and other class names stay |
| Tabs.ShowTab | lib/static/javascript/auto/50_tabs.js:3-37 | the styled panels are hidden but the target, which is shown, so it is the only one showing; the tabs are deselected and the target selected; the result is false |
| Tabs.ShowTabAsWritten | lib/static/javascript/auto/eprints.js:35-76 | a child without a style throws after hiding the children before it; otherwise every panel but the target is hidden and the tabs are switched |
| Tabs.TextNodeExample | lib/static/javascript/auto/eprints.js:38-43 | a text node among the panels makes eprints.js throw while 50_tabs.js shows the panel |
| Dom.Node.constructor | lib/static/javascript/auto/50_tabs.js:10 | an element with the given style presence, display and class |
| Metafield.BitOf | lib/static/javascript/auto/80_metafield.js:49-52 | an id gives a bit iff it starts with `basename_`; the bit restores the id after `basename` and starts with `_` |
| Metafield.InputBits | lib/static/javascript/auto/80_metafield.js:45-55 | no more bits than inputs, each non-empty and starting with `_` |
| Metafield.InputBitsAppend | lib/static/javascript/auto/80_metafield.js:48-54 | the bits follow document order |
| Metafield.InputBitsMembers | lib/static/javascript/auto/80_metafield.js:47-54 | a bit is recorded iff some input id is `basename` plus it and starts with `basename_` |
| Metafield.Field.InitializeInputBits | lib/static/javascript/auto/80_metafield.js:45-55 | the bits are reset and then hold the bits of the inputs |
| Metafield.Field.InitializeRow | lib/static/javascript/auto/80_metafield.js:56 | a row is set up with the current bits |
| Metafield.RowName | lib/static/javascript/auto/80_metafield.js:34 | row names extend `basename_` |
| Metafield.RowNamesDistinct | lib/static/javascript/auto/80_metafield.js:33-37 | different rows have different names |
| Metafield.ExpectedRows | lib/static/javascript/auto/80_metafield.js:31-43 | no rows without a lookup URL; one per space for a multiple field; otherwise one; each with its own bits |
| Metafield.NumberedRows | lib/static/javascript/auto/80_metafield.js:33-36 | n rows, the k-th named `<basename>_<k+1>` with the bits read under that name |
| Metafield.MultipleRows | lib/static/javascript/auto/80_metafield.js:33-37 | rows are numbered from 1 in order, with distinct names |
| Metafield.Field.constructor | lib/static/javascript/auto/80_metafield.js:7-44 | the basename; the root; a missing lookup parameter becomes ""; multiple iff the spaces element exists; the rows and final bits of `ExpectedRows` |
| Metafield.Field.SetUpRows | lib/static/javascript/auto/80_metafield.js:33-37 | the loop over the spaces leaves exactly `NumberedRows`, with the input bits of the last row (none when there are no spaces) |
| EpmAvailable.Update | lib/static/javascript/screen_admin_epm_available.js:4-44 | no input does nothing; `_pvalue` defaults to ""; nothing is sent while the value equals it or a request is in flight; otherwise the value is sent and the input marked busy, so at most one request is outstanding |
| EpmAvailable.SearchParams | lib/static/javascript/screen_admin_epm_available.js:31-35 | the request carries `screen`, `ajax=1` and the query |
| EpmAvailable.SearchInput.constructor | lib/static/javascript/screen_admin_epm_available.js:8 | no `_pvalue`, nothing in flight |
| EpmAvailable.SearchInput.Complete | lib/static/javascript/screen_admin_epm_available.js:39-42 | `_pvalue` becomes the value sent, not the current one, and the input is free |
| EnterKeys.KeyOf | lib/static/javascript/auto/50_block_enter.js:7-14 | the key is a present non-zero `which`, else `keyCode` |
| EnterKeys.BlockEnterCases | lib/static/javascript/auto/50_block_enter.js:7-15 | Enter in `which` is blocked; without `which` it is blocked iff `keyCode` is 13; another non-zero `which` passes even with `keyCode` 13 |
| EnterKeys.EnterClick | lib/static/javascript/auto/enter_click.js:1-21 | the button is clicked once iff the key is 13, and the result is the block-enter result |
| EnterKeys.Button.constructor | lib/static/javascript/auto/enter_click.js:18 | a button not yet clicked |
| Extras.HumanFilesize | lib/static/javascript/auto/45_extras.js:51-74 | the size as the number then the unit suffix; its properties are the contracts of SizePartsChoice, SizePartsBracket, SizePartsUnits and SmallSizesDistinct |
| Extras.VariantIndex | lib/static/javascript/auto/45_extras.js:24 | the hex value of the drawn digit, with a letter read as 0 as `&` does with a non-number; stated by VariantIndexMatches |
| PhraseEdit.DecodeHtmlEntities | lib/static/javascript/auto/70_phraseedit.js:2-10 | the five global replaces in source order; inverts the escaping by DecodeEscape |
| Autocomplete.CallbackParams | lib/static/javascript/auto/70_autocomplete.js:45-48 | the entry, the `&<rel>=<value>` pairs and `extra_params`; stated by CallbackParamsShape and SplitPairs |
| Autocomplete.PopupWidth | lib/static/javascript/auto/z_autocomplete.js:9-17 | the summed cell widths with `px`; stated by PopupWidthIsSum |
| Autocomplete.Unescape | lib/static/javascript/auto/70_autocomplete.js:79-85 | the three case-insensitive replaces in source order; inverts the escaping by UnescapeEscaped |
| Autocomplete.Parse70 | lib/static/javascript/auto/70_autocomplete.js:67-75 | the alert or the target of an item id; stated by ParseWellFormedId, MissingIdPart, NotForRejected and BareValueParse |
| Autocomplete.ParseZ | lib/static/javascript/auto/z_autocomplete.js:24-30 | the target of a `for:value` id as JavaScript's `+` writes it; stated by ParseZLooksUp, ParseWellFormedId and MissingIdPart |
| Autocomplete.Step70 | lib/static/javascript/auto/70_autocomplete.js:66-104 | one item: its alert, or its unescaped text or its content written to a found target |
| Autocomplete.Run70 | lib/static/javascript/auto/70_autocomplete.js:66-104 | the items in order; stated by RunKeepsElements, RunLeavesOthers, RunAlerts and LastValueWins |
| Autocomplete.StepZ | lib/static/javascript/auto/z_autocomplete.js:23-33 | one item: its raw inner HTML written to a found target |
| Autocomplete.RunZ | lib/static/javascript/auto/z_autocomplete.js:23-33 | the items in order; stated by RunKeepsElements, RunZLeavesOthers and LastValueWinsZ |
| AutocompleteKeys.KeyPress | lib/static/javascript/auto/75_workarounds.js:14-50 | the new flags and the effects of one key press per version; stated case by case by the AutocompleteKeys lemmas |
| UploadMethodFile.RewriteAction | lib/static/javascript/auto/88_uploadmethod_file.js:37-41 | the action with `progress_id` added before the first `#`; stated by RewriteWithoutFragment, RewriteKeepsFragment and RewriteDropsAfterSecondHash |
| Toggle.CurrentVis | lib/static/javascript/auto/50_toggle.js:85-94 | whether the element counts as visible; stated through NextDisplayCases |
| Toggle.NextDisplay | lib/static/javascript/auto/50_toggle.js:85-103 | the display after a toggle; stated by NextDisplayCases, ToggleTwice and ToggleSettles |
| Toggle.OldCurrentVis | lib/static/javascript/auto/eprints.js:2-24 | visibility in the older toggle; agrees with CurrentVis by TogglesAgree |
| Toggle.Gt | lib/static/javascript/auto/eprints.js:29 | `ep_gt`; related to `ep_lt` by LtIsSwappedGt |
| Toggle.Lt | lib/static/javascript/auto/eprints.js:32 | `ep_lt`; related to `ep_gt` by LtIsSwappedGt |
| EnterKeys.BlockEnter | lib/static/javascript/auto/50_block_enter.js:7-15 | whether the key press may go on; stated by BlockEnterCases |
| Workarounds.Run | lib/static/javascript/auto/35_workarounds.js:58-81 | the listeners applied to a sequence of events; stated by RunAppend, EnterLevels, LeaveLevels, NestedDrag and UnmatchedLeave |
| Workarounds.IeFlag | lib/static/javascript/auto/35_workarounds.js:84-89 | the `IE<n>` flag; stated by IeFlagDigits and AtMostOneIeFlag |
| ProgressBar.Target | lib/static/javascript/auto/85_progress.js:57 | the rounded target offset; stated by TargetBounds and TargetIsNearest |

## Left out

- AJAX transport, URLs and alerts are left out. Responses are inputs to the callbacks: the server's id list, a report `{received, size}`, a status code, a response text.
- Script.aculo.us animations and what their `afterFinish` moves in the DOM are left out. The document list is modelled with its synchronous splices only.
- The list of documents is a field of one component. The scripts declare it on the shared prototype, so all instances alias one array. That aliasing is not modelled.
- Element lookup (`$`, `select`), form serialisation and node creation are library calls. They become inputs: ids present, serialised maps, node sequences.
- Load order between files is not modelled. Each definition is modelled as written: both `EPJS_toggle`, both `ep_showTab`, both `ep_autocompleter`, and the three `onKeyPress`. The 35_workarounds.js and 75_workarounds.js versions are identical and share one variant.
- Numbers are exact. IEEE rounding of `received / size`, of `progress * width` and of the popup widths is not modelled.
- UploadMethodFile.UploadProgress.Answered: after a non-JSON answer the script goes on to read `json.received` and throws. The model stops at the poller's stop.
- UploadMethodFile.UploadForm.FileChange: the click on the add button between the change and the restore is the submission the method returns.
- ComponentDocuments.DocumentList.UpdateDocuments: the held entries are taken to have distinct ids (`Valid`), as the page lists each document once. With a repeated id the script keeps every copy the server lists, requests each server id not held, and can pass the length check unordered: ids [x, x] against the server's [x, y] keep both, request y, place only the first x and leave the second with no placement. Such lists are not modelled.
- UploadMethodFile.FileStop: the refresh in every instance is the list of refresh requests, not a call into the documents component.
- ProgressBar.Bar.Tick: the measured image width is a parameter.
- Extras.GenerateUuid: `Math.random` is replaced by the 32 drawn digits, given as input.
- Autocomplete.UpdateElement70: `block` mode moves the item's child nodes into the emptied target. The model gives the target the item's inner HTML as content and does not model the item being emptied. The value unescaping is proved to invert the escaping; that it ignores case is part of its definition, not a separate lemma.
- Autocomplete: the `li` id read through `getAttribute` is a string; a missing id, which would make `split` throw, is not modelled.
- AutocompleteKeys: timers are effects in a list. The callback `change` and the observer's later firing are not run.
- ButtonPushed.Registry.Pushed: callbacks are modelled as returning booleans. A callback returning another truthy or falsy value is not modelled.
- Tabs: `tab.style.font_size` and the `blur` of the tab's anchors have no visible effect and are not modelled.
- Metafield.Field.InitializeRow: the drop-down and loading elements that `initialize_row` builds are not modelled, only that the row is set up with the current bits. The `_spaces` element's value is taken as a number; a non-numeric value, which gives no rows, is not modelled.
- Metafield: the regular expression built from the basename is read literally. A basename holding regular-expression characters would match more ids.
- EnterKeys: an event object is always present. Without one, the fallback to `event.keyCode` would throw.
- Workarounds: the load handler of 75_workarounds.js that stops `dragenter`, `dragexit`, `dragover` and `drop` on the body keeps no state and decides nothing, so it is not modelled.
- ComponentField.Field.CallActionHandler: the handler is also handed the calling field; the call records the handler and the element only.
- EpmAvailable.Update: the loading image placed over the results is not modelled.
- 45_extras.js `serialize_form` and `attributesHash`, the layout helpers, the date picker, the menus and the other widgets are outside this model.

## Findings

| source | as written | input that shows it | evidently intended | confidence | as-written member | corrected member |
|---|---|---|---|---|---|---|
| lib/static/javascript/auto/88_uploadmethod_file.js:34-54 | the form's original target is saved, but afterwards the target attribute is removed instead of set back | a form with `target="_blank"` loses its target after an upload | the target saved at line 34 is restored, as the action is at line 54 | medium, not executed | UploadMethodFile.TargetLostExample | UploadMethodFile.TargetKeptExample |
| lib/static/javascript/auto/eprints.js:39-43 | every panel child's `style.display` is written, and a text node has no `style` | panels separated by white space: the first text node throws before any tab is switched | children without a style are skipped, as 50_tabs.js:10 does | high, not executed | Tabs.ShowTabAsWritten | Tabs.ShowTab |
