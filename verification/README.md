# Prompt-hash shortcodes, modelled in Dafny

This is a model of the core of a browser extension that expands `#shortcode`
tokens. A user types a short `#name` into a text field or a contenteditable
editor. The extension finds the token just before the caret and looks up the
stored shortcut with that name. It then substitutes the page's clipboard,
selection, URL and title for the `{clipboard}`, `{selection}`, `{url}` and
`{title}` placeholders of the template. The token is replaced by the result,
and the caret goes where the `{cursor}` marker was.

The popup manages the shortcut list: it normalises names, shows previews,
filters the list, saves and deletes entries, and imports a file. All state
lives in two storage areas, `local` and the optional `sync`. A stored
preference decides which of them holds the shortcuts.

The model is functional. Strings are `seq<char>`, DOM text is a sequence of
text-node strings, and storage is a pair of optional records. Every browser
effect is either a parameter or a returned value.

| module | file | models |
|---|---|---|
| `Wrappers` | wrappers.dfy | `Option` |
| `Text` | text.dfy | `\s`, `trim`, ASCII `toLowerCase`, `indexOf`, `replaceAll`, `split`, `join` |
| `Seqs` | seqs.dfy | `Array.prototype.filter` |
| `Shortcuts` | shortcuts.dfy | the shortcut record and `findShortcutByName` |
| `TokenLocator` | token_locator.dfy | `getTokenAtCursor` |
| `TextNodes` | text_nodes.dfy | `getTextNodes`/`getNodeForOffset` and the range splice |
| `TemplateResolver` | template_resolver.dfy | `resolveTemplateVariables`, `applyCursorPlaceholder` |
| `Inserter` | inserter.dfy | `insertTemplateIntoElement`, `insertTemplateAtCursor` |
| `Storage` | storage.dfy | `storage.js` |
| `ContentScript` | content_script.dfy | `isEditableElement`, the settings cache, `shouldAutoExpand` |
| `Popup` | popup.dfy | `popup.js`'s list logic |

Notes on the behaviour the model follows:

- **Placeholder substitution is sequential.** Substitution is four
  `replaceAll` passes run in order, and each pass scans the previous pass's
  output. So a clipboard or selection that contains `{url}` or `{title}` has
  those replaced too: the placeholders are not independent
  (`TemplateResolver.SelectionIsRescanned`). The model follows the code.
- **Inserted values are not literal.** `replaceAll` with a string
  replacement expands `$$`, `$&`, `` $` `` and `$'` in it, so a clipboard
  reading `$$x$$` is pasted as `$x$` and one reading `$&` as `{clipboard}`
  (`TemplateResolver.ExampleDollarsInClipboard`,
  `TemplateResolver.ExampleMatchedTextInClipboard`). Values without `$` are
  inserted as they are. The model follows the code.
- **The caret marker can reassemble.** `{cursor}` is removed in one
  left-to-right pass, so pieces around a removed marker can form a new one
  (`TemplateResolver.ExampleNestedMarkerSurvives`).
- **Seeding defaults can change the preferred area.** `ensureDefaults`
  writes the default settings, whose `storageArea` is `"sync"`, into the
  preferred area when that area has no settings. This can change which area
  later calls prefer (`Storage.ExampleEnsureDefaultsMovesPreference`).
- **`normalizeName` never strips a hash.** The `replace(/^#+/, "")` branch
  only runs on a string that does not start with `#`, so it never removes
  anything (`Popup.NormalizeNameAddsAtMostHash`).

## Model

| member | source | states |
|---|---|---|
| TokenLocator.GetTokenAtCursor | content_script.js:121-141 | a match is a `#[\w-]+` run ending where the skipped whitespace begins, `end + trailingWhitespaceLength == cursor`, and whitespace is skipped only when the flag allows it |
| TokenLocator.TokenAt | content_script.js:129-140 | a `#[\w-]+$` match ends at the end of the text before the adjusted caret, is copied from that text, reads `#` plus token characters, and carries the skipped whitespace length |
| TokenLocator.TokenFoundIff | content_script.js:121-141 | with the flag off, a token is found exactly when the text before the caret ends in `#` followed by at least one word character or `-` |
| TokenLocator.TokenIsLongestSuffix | content_script.js:133-137 | any suffix of the text up to the token's end that reads `#` plus token characters has the found token's length: the greedy regex anchored at `$` has one answer |
| TokenLocator.TrailingWhitespaceSkipped | content_script.js:123-128 | with the flag on, the result is the flag-off search at the caret moved back past the whole whitespace run, with that run's length recorded |
| TokenLocator.NoWhitespaceFlagIrrelevant | content_script.js:123-128 | when no whitespace precedes the caret, the flag makes no difference |
| TokenLocator.TokenBeforeCaretFound | content_script.js:121-141 | any span satisfying the token condition before the caret is exactly the one returned, so the search is complete |
| TokenLocator.OnlyTextBeforeCaretMatters | content_script.js:129-130 | text after the caret never affects the result |
| TokenLocator.ExampleAfterSpace | content_script.js:121-141 | `"hello #sum "` with the flag on yields `#sum` at 6..10 with one trailing whitespace character |
| TextNodes.NodeForOffset | content_script.js:152-163 | `null` exactly when there are no nodes or the offset is past the text; otherwise a node and an in-node offset that add up to the linear offset, in the first node that reaches it |
| TextNodes.BoundaryResolvesToEarlierNode | content_script.js:156-158 | an offset on a node boundary resolves to the end of the earlier node (`remaining <= length`) |
| TextNodes.NodeForOffsetMonotone | content_script.js:152-163 | a larger offset never resolves to an earlier node position |
| TextNodes.SpliceFlatten | content_script.js:235-241 | deleting between two resolved positions and inserting a text node leaves text equal to the flat text with that span replaced |
| TextNodes.SpliceStartsNewNode | content_script.js:240-244 | the inserted node starts at the start position's linear offset, where the new caret is measured from |
| TemplateResolver.ResolveTemplateVariables | content_script.js:165-182 | a template without the four placeholders comes back unchanged, so `{name}` and `{cursor}` survive; when no value holds `$`, the four passes are plain literal replacements in order |
| Text.Substitution | content_script.js:178-181 | GetSubstitution for a string search: a replacement without `$` is copied unchanged |
| Text.JsReplaceAll | content_script.js:178-181 | `replaceAll` with a string pattern: the literal left-to-right, non-overlapping replacement whenever the replacement holds no `$`, and the identity when the pattern does not occur |
| Text.ReplaceAllFromLiteral | content_script.js:178-181 | from any index on, the `replaceAll` scan with a `$`-free replacement is the literal replacement of the rest |
| Text.JsReplaceAllWhole | content_script.js:178-181 | a string that is exactly the pattern becomes the substitution of the replacement, with nothing before or after the match |
| Text.ReplaceAllIsSplitJoin | content_script.js:199 | the literal replacement is the string split at the pattern and rejoined with the replacement |
| TemplateResolver.ExampleDollarsInClipboard | content_script.js:178 | a clipboard reading `$$x$$` is pasted as `$x$` |
| TemplateResolver.ExampleMatchedTextInClipboard | content_script.js:178 | a clipboard reading `$&` is pasted as `{clipboard}`, which the later passes leave alone |
| TemplateResolver.CursorPassIsLiteral | content_script.js:199 | deleting `{cursor}` with an empty replacement is the literal replacement |
| TemplateResolver.UnreadableClipboardIsEmpty | content_script.js:166-173 | a clipboard that cannot be read resolves as the empty string |
| TemplateResolver.SelectionIsRescanned | content_script.js:177-181 | selected text, after its own `$` substitution, is itself searched for `{url}` and then `{title}` |
| TemplateResolver.ExampleSelectionHoldsTitleMarker | content_script.js:177-181 | a selection reading `{title}` resolves to the page title |
| TemplateResolver.ApplyCursorPlaceholder | content_script.js:197-202 | the caret is at the first marker's index, or at the end when there is none; the text before it is unchanged |
| TemplateResolver.CaretAtFirstMarker | content_script.js:197-202 | with the first `{cursor}` at index i, the caret is i, the text before it is kept, that marker is deleted and the later markers are removed from the rest |
| TemplateResolver.CursorTextIsSplitJoin | content_script.js:199 | the text is the resolved template split at `{cursor}` and rejoined with nothing |
| TemplateResolver.NoMarkerBeforeCaret | content_script.js:197-202 | no `{cursor}` is left before the caret |
| TemplateResolver.ExampleNestedMarkerSurvives | content_script.js:199 | `{cur{cursor}sor}` becomes `{cursor}` with the caret at 4 |
| Inserter.InsertTemplateIntoElement | content_script.js:204-268 | the fixed errors for a missing selection object and for missing selection indices; a plain field succeeds exactly when a token is found; a failure changes no text; a success leaves the caret inside the text |
| Inserter.ExpandInPlainField | content_script.js:253-267 | succeeds exactly when a token is found; on failure the field is unchanged with the no-shortcode error |
| Inserter.PlainExpansionSound | content_script.js:258-265 | a successful expansion replaced a token span before the caret, keeping the text around it, with the caret at the token start plus the marker offset |
| Inserter.PlainExpansionComplete | content_script.js:258-265 | a token span before the caret is always expanded, in exactly that way |
| Inserter.NoTokenNoChange | content_script.js:258-261 | without a token before the caret, the field is returned unchanged with the no-shortcode error |
| Inserter.CurrentRange | content_script.js:213-219 | a selection outside the element collapses to the end of the element's text; a selection inside is kept |
| Inserter.ReplaceSpanInRichField | content_script.js:230-247 | positions always resolve for a span ending past offset 0; a failure leaves the element as it was; on success the text is the span-replaced text, with the caret at the start plus the clamped marker offset |
| Inserter.RichAgreesWithPlain | content_script.js:207-251 | a contenteditable element gives the same outcome, text and caret as a plain field holding its flattened text with the same selection |
| Inserter.RichExpansionAt | content_script.js:220-247 | the rich path replaces exactly the token span found in the text before the caret |
| Inserter.CaretAlwaysResolves | content_script.js:230-234 | "Unable to resolve caret position." never occurs, because a found token always ends past offset 0 |
| Inserter.InsertTemplateAtCursor | content_script.js:270-310 | fails exactly when the selection object or the selection indices are missing; a failure changes nothing; a success leaves the caret inside the text |
| Inserter.ReplaceInPlainField | content_script.js:303-307 | the selection is replaced by the text, with the caret at the start plus the marker offset |
| Inserter.RichAtCursorAgreesWithPlain | content_script.js:274-297 | in a contenteditable element, the text and caret agree with the plain-field insertion at the same selection |
| Inserter.ExamplePlainExpansion | content_script.js:204-268 | `ask #ask` with `resolved{cursor}!` becomes `ask resolved!` with the caret at 12 |
| Inserter.ExampleRichExpansion | content_script.js:207-251 | the same expansion over the nodes `ask ` and `#ask` gives the nodes `ask `, `resolved!` and an empty one, with the caret at 12 |
| Shortcuts.FindShortcutByName | content_script.js:318-320 | the first entry with that name, or `None` exactly when no entry has it |
| Shortcuts.FindUnique | content_script.js:318-320 | with distinct names, the entry found is the one holding that name |
| ContentScript.IsEditableElement | content_script.js:49-65 | a missing element is not editable; contenteditable always is; otherwise editable exactly when the lower-cased tag is `textarea`, or is `input` with a lower-cased type among `text`, `search`, `url`, `email`, `tel` |
| ContentScript.EditableIgnoresCase | content_script.js:55-62 | tag names and input types are compared without regard to ASCII case |
| ContentScript.ExampleInputs | content_script.js:58-62 | `INPUT` of type `Email` is editable; an input whose `type` property is absent, or of type `checkbox`, is not |
| ContentScript.LoadSettings | content_script.js:34-47 | every default key and every key stored in either area is present; local's value wins over sync's, and sync's over the default |
| ContentScript.SavedSettingsReachThePage | content_script.js:34-47 | after `saveSettings`, the page cache equals what `loadData` returns: the saved settings over the defaults |
| ContentScript.OnSettingsChanged | content_script.js:420-424 | a `settings` change replaces the cache with the new value over the defaults, keeping every key of both; other changes keep it |
| ContentScript.ChangeForgetsCache | content_script.js:420-424 | the cache after a settings change does not depend on what it held |
| ContentScript.DefaultsNeverAutoExpand | content_script.js:1-6 | with the default settings, no key auto-expands |
| ContentScript.ShouldAutoExpand | content_script.js:426-431 | only the space and Enter keys can trigger an expansion |
| ContentScript.AutoExpandFollowsStores | content_script.js:426-431 | with the cache loaded from storage, a space or Enter expands exactly when local's stored flag is truthy, or, when local stores none, sync's is; with neither, never |
| ContentScript.SavedFlagDecides | content_script.js:426-431 | auto-expansion follows the most recently saved flag |
| ContentScript.DefaultTemplatesEndWithCaret | storage.js:8-69 | every default template ends with `{selection}{cursor}`, so the selection is appended and the caret follows it |
| ContentScript.DefaultNamesAreFound | storage.js:8-69 | every default shortcut's name is a whole token the caret search finds, and the lookup returns that shortcut |
| Storage.Spread | storage.js:94-97 | `{...base, ...over}`: the union of keys, with `over` winning and an absent `over` adding nothing |
| Storage.AreaByName | storage.js:71-76 | `local` is chosen exactly for the name `"local"` or when `sync` is unavailable, and the chosen area exists |
| Storage.Truthy | storage.js:85-87 | the falsy values are exactly `false`, `""`, `0` and `null` |
| Storage.PreferredName | storage.js:78-89 | the chosen name is always truthy; it is a stored preference, or `"sync"` only when `sync` exists, or `"local"`; a truthy local preference always wins |
| Storage.LocalPreferenceWins | storage.js:84-87 | with a truthy local preference, what `sync` holds, or whether it exists, does not change the choice |
| Storage.PreferredArea | storage.js:78-89 | the chosen area always exists |
| Storage.PreferredAreaCases | storage.js:78-89 | the preferred area is `local` exactly when `sync` is unavailable or the first truthy stored preference is `"local"` |
| Storage.LoadData | storage.js:91-98 | the preferred area's non-empty list, otherwise the defaults; its settings over the defaults; never an empty list |
| Storage.SaveShortcuts | storage.js:100-103 | only the preferred area's list changes; the other area and all settings are kept |
| Storage.SaveShortcutsKeepsArea | storage.js:100-103 | saving shortcuts does not change the preferred area |
| Storage.SaveThenLoadShortcuts | storage.js:91-103 | a saved non-empty list is loaded back unchanged, with the settings unchanged |
| Storage.SaveEmptyLoadsDefaults | storage.js:91-98 | saving an empty list makes the next load return the default shortcuts |
| Storage.SaveSettings | storage.js:105-111 | both areas get the same merged settings, which hold every default key and every saved value; the shortcut lists are kept |
| Storage.SaveThenLoadSettings | storage.js:91-111 | loading after saving returns exactly the saved settings over the defaults |
| Storage.SaveSettingsSelectsArea | storage.js:78-111 | after saving, `local` is preferred exactly when the merged `storageArea` is `"local"` or `sync` is unavailable |
| Storage.EnsureDefaults | storage.js:113-126 | the preferred area gets the defaults for a missing or empty list and missing settings; existing values and the other area are kept |
| Storage.EnsureDefaultsKeepsLoad | storage.js:91-126 | seeding changes nothing a load sees, while the preferred area is unchanged |
| Storage.EnsureDefaultsIdempotent | storage.js:113-126 | seeding twice is seeding once, while the preferred area is unchanged |
| Storage.ExampleEnsureDefaultsMovesPreference | storage.js:113-126 | seeding settings into `sync` can move the preference from `local` to `sync` |
| Storage.DefaultNamesDistinct | storage.js:8-69 | there are ten default shortcuts, with distinct names |
| Storage.Preset | storage.js:8-69 | a default entry's template ends with `{selection}{cursor}` |
| Popup.NormalizeName | popup.js:29-35 | the result is trimmed, lower-case and starts with `#` |
| Popup.NormalizeNameAddsAtMostHash | popup.js:29-35 | the result is the trimmed lower-cased input, with `#` prepended only when missing |
| Popup.NormalizeNameIdempotent | popup.js:29-35 | normalising twice is normalising once |
| Popup.NormalizeNameIgnoresBlanksAndCase | popup.js:29-35 | blanks around a word without a leading `#` are dropped, its ASCII capitals are lowered and one `#` is put in front (`"  Sum "` gives `#sum`) |
| Popup.BlankNameIsBareHash | popup.js:29-35 | a blank name becomes the bare `#` that saving rejects |
| Popup.ToPreviewText | popup.js:37-39 | a prefix of the template with no newline and at most 80 characters, stopping only at 80, at the end or at a newline |
| Popup.PreviewFirstLine | popup.js:37-39 | the preview is the first line cut to 80 characters |
| Popup.FilterShortcuts | popup.js:43-53 | an order-preserving sublist holding exactly the entries that match the trimmed lower-cased query, each as many times as the list holds it |
| Popup.BlankFilterShowsAll | popup.js:46-48 | a blank query shows the whole list |
| Popup.FilterIgnoresCaseAndBlanks | popup.js:43 | the query's case and surrounding whitespace do not matter |
| Popup.DeleteShortcut | popup.js:167-176 | unconfirmed, nothing changes; confirmed, the name is gone and every other entry is kept, in order and with its multiplicity |
| Popup.DeleteMissingName | popup.js:167-176 | deleting a name that is not present changes nothing |
| Popup.ParseTags | popup.js:188-191 | every parsed tag is non-empty and trimmed |
| Popup.ParseTagsKeepsPieces | popup.js:188-191 | the tags are a subsequence of the trimmed pieces, a value is a tag exactly when it is a non-empty piece, and each occurs as often as among the pieces |
| Popup.TagsRoundTrip | popup.js:156 | tags shown by `startEdit` (joined with `", "`) parse back to the same tags when each is trimmed, non-empty and comma-free |
| Popup.Upsert | popup.js:258-263 | `Map.set`: the name now finds the new entry, other names find what they found, existing names keep their places, distinct names stay distinct |
| Popup.Validate | popup.js:179-187 | rejects exactly a bare `#` name ("Enter a valid #name.") or a blank template ("Template cannot be empty."), checking the name first |
| Popup.Payload | popup.js:188-204 | the normalised name, trimmed template and parsed tags; `favorite` is taken from an existing entry of that name |
| Popup.HandleSave | popup.js:178-220 | a rejection exactly when validation fails, with its message; otherwise the payload is in the saved list |
| Popup.HandleSaveLosesEntry | popup.js:193-214 | editing `#a` into `#b` in `[#a, #b, #c]` saves two `#b` entries and loses `#c` |
| Popup.HandleSaveFixed | popup.js:178-220 | rejects exactly what `handleSave` rejects, with the same message |
| Popup.HandleSaveFixedCorrect | popup.js:178-220 | the saved list keeps names distinct, finds the payload under its name, drops a renamed entry, keeps every other entry and adds nothing else |
| Popup.HandleSaveAgreesUnlessRenamingOntoExisting | popup.js:193-214 | the code as written equals the corrected version except when renaming onto a name that exists |
| Popup.FromIncoming | popup.js:258-262 | an imported entry keeps its name and template, defaults missing tags to `[]` and makes `favorite` a boolean |
| Popup.Conflicts | popup.js:243-244 | exactly the incoming entries whose names already exist |
| Popup.UpsertAll | popup.js:254-262 | after setting all entries, a name set by them finds its last entry there; other names find what they found |
| Popup.UpsertNames | popup.js:256 | `Map.set` adds a new name at the end and leaves the names as they are otherwise |
| Popup.UpsertAllNames | popup.js:254-262 | the names after setting all entries are the first appearances in the old names followed by the new ones |
| Popup.MapOfDistinctIsIdentity | popup.js:254-262 | keying a list with distinct names by name and taking the values back gives the same list |
| Popup.ImportShortcuts | popup.js:237-272 | nothing is imported exactly when there are conflicts and the overwrite is declined; settings are the file's over the current ones |
| Popup.ImportMergeCorrect | popup.js:254-262 | for any stored list, repeated names included: the merged names are the stored ones and then the file's, each at its first appearance, hence distinct; a name is found with its last entry in the file, else its last stored entry; nothing else enters |
| Popup.ImportedEntries | popup.js:254-262 | each merged entry is the last file entry with its name, or else the last stored one |
| Popup.ImportIntoDistinctList | popup.js:254-262 | for a stored list without repeated names, stored entries keep their places and the new names follow |
| Popup.ImportWithoutConflicts | popup.js:244-253 | without conflicts the import happens whatever the answer |

## Left out

- Browser I/O: `chrome.storage` calls, messaging, `scripting.executeScript`, commands and windows. Storage is the `Stores` value passed in and returned.
- Async clipboard permission and the `await`: the clipboard is an optional input, and `None` stands for an unreadable clipboard.
- DOM mechanics: the TreeWalker, Range objects, focus, input events, toasts and timers. A contenteditable element is its text nodes and a selection given as linear offsets. Only the effect on the text and the caret is modelled.
- `SpliceNodes` represents text nodes as strings. Empty nodes left by a split are kept, as in the DOM, but node identity is not represented.
- `expandShortcut`, `loadShortcuts`, `getActiveEditableElement` and the keyup handler are left out. They are orchestration: element discovery, a storage read, and calls into the modelled functions.
- Site detection (`getSiteConfig`, `findAiInput`, `findSendButton`) and the auto-send click are left out. They are hostname regexes and `querySelector` lookups.
- `content_script.js`'s own `resolvePreferredStorageArea` (184-195) is left out as a separate member. It is the same cascade as `storage.js`'s, and `Storage.PreferredArea` models both.
- Popup.FromIncoming, Popup.ImportShortcuts: every imported entry is assumed to be an object with a string `name`, a string `template`, and `tags` that are an array or missing. `handleImportFile` accepts any JSON, so three cases are not modelled. An entry without `template` is merged and saved (popup.js:264), and `renderList` then throws at `toPreviewText(shortcut.template)` (popup.js:87), so "Import failed." is shown after the data was saved. A truthy `tags` that is not an array, such as `"a,b"`, is kept as it is by `shortcut.tags || []`. A `null` entry throws at `shortcut.name` (popup.js:245), so nothing is imported. Extra fields copied by `...shortcut` are not represented either. Modelling these would need an untyped JSON value in place of `Shortcut` throughout the popup and storage model.
- Popup I/O is left out: `JSON.parse` failure, FileReader, export, rendering and the favourite toggle. `confirm` becomes a boolean parameter.
- `options.js` and `service_worker.js` are form binding and event routing only.
- Unicode: `\w` is ASCII `[A-Za-z0-9_]`, `\s` is a fixed set of whitespace characters, and `toLowerCase` is ASCII only. A string is a sequence of characters, while JavaScript indexes UTF-16 code units. So `selectionStart`, the token offsets, `cursorOffset`, `textContent.length` (content_script.js:157) and `slice(0, 80)` (popup.js:38) count characters here, and the splitting of a surrogate pair at a slice boundary is not modelled.
- Inserter.ExpandInPlainField, Inserter.ReplaceInPlainField: the browser's value sanitization on assignment is not modelled. Inputs of type `text`, `search`, `url`, `tel` and `email` drop line breaks, and `url` and `email` also strip surrounding whitespace. A `textarea` turns CR and CRLF into LF. Every default template contains a blank line, so in a one-line input the stored text is shorter than the model's and the caret, computed on the unsanitized text, lands later than in the model. An `email` input reports no `selectionStart`, so it always takes the missing-indices error path; the model leaves the indices to the caller.
- Storage.Truthy: `NaN` is not a modelled value.
- Storage.EnsureDefaultsKeepsLoad and Storage.EnsureDefaultsIdempotent require the preferred area to stay the same. Without that condition neither holds (`Storage.ExampleEnsureDefaultsMovesPreference`).

## Findings

| source | as written | input that shows it | evidently intended | confidence | as-written member | corrected member |
|---|---|---|---|---|---|---|
| popup.js:193-214 | `existingIndex` is computed on the list before a renamed entry is filtered out, then used to splice the filtered list | list `[#a, #b, #c]`, editing `#a`, form name `#b`: the result is `[#b, #b']`, so `#c` is lost and two entries share a name | replace the entry named `#b` in the filtered list, giving `[#b', #c]` | not executed | Popup.HandleSave, Popup.HandleSaveLosesEntry | Popup.HandleSaveFixed, Popup.HandleSaveFixedCorrect |
