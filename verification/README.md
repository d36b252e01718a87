# Custom Search context menu — Dafny model

This project models the core of a browser extension that adds a
"Custom Search" entry to the context menu for selected text. The user keeps
a list of saved searches. Each has an id, a name and a url template, and the
template may contain `%s`. A click on a saved search opens a tab at the
template, with the first `%s` replaced by the URI-encoded selection. An
options page edits the saved searches. It also edits a list of named
*variables*, each with a default value, and a list of *environments*. Each
environment holds per-variable overrides. The whole configuration can be
exported and imported.

The model has one module per concern:

- `Store` (`store.dfy`): the stored snapshot `{urls, variables, environments}` and its record shapes. It also holds the lookups the handlers use (`find`, `some`), the invariant `Valid` that the options page keeps, and `Outcome`. `Outcome` is the result of one read–transform–write storage callback: `Written`, `Ignored` (an early return) or `Rejected` (an `alert` instead of a write).
- `Background` (`background.dfy`): the menu that `loadMenuItems` creates, modelled as a list of create requests. It also covers the storage listener's rebuild condition and the click listener's routing, including the `%s` substitution.
- `UrlOps`, `VariableOps`, `EnvironmentOps`, `DataOps`: the options page's handlers. Each handler is a pure function from the snapshot it reads (plus the form inputs) to an `Outcome`.
- `Text` (`text.dfy`): the JavaScript string operations the handlers rely on. `trim` uses the exact ECMA-262 WhiteSpace and LineTerminator set. `toUpperCase` is modelled for ASCII. `indexOf` and `replace` take a string pattern, and `replace` applies GetSubstitution's `$` patterns.
- `Uri` and `UriDecode` (`uri.dfy`, `uri_decode.dfy`): `encodeURIComponent` over UTF-8, and `decodeURIComponent` as its inverse.
- `Seqs`: order-preserving `filter`. `Wrappers`: `Option`.

A click substitutes only `%s` in the template (`background.js`). Variables and environments are stored and edited by the options page, but nothing in `background.js` reads them, so they are never applied to a url.

Two details follow from the code's use of `map`. A variable rename re-keys every override whose key is the old name. Saving an environment value overwrites every override with that key, not only the first one, and appends one when there is none.

## Model

| member | source | states |
|---|---|---|
| Background.BuildMenu | background.js:14-42 | One leaf per saved search, in list order, with the entry's id and name. A separator only when the list is non-empty, and then right after the leaves. The manage item last. Every node is under the parent. |
| Background.InstallMenu | background.js:2-10 | The installed tree is the parent item followed by exactly the children `loadMenuItems` creates. |
| Background.OnStorageChanged | background.js:60-71 | The menu is rebuilt if and only if the change is in the `sync` area and touches `urls`. The rebuilt tree is the full tree for the stored list. |
| Background.InstallMenuIdsDistinct | background.js:14-42 | The created ids are pairwise distinct, so no create fails, if and only if the saved ids are distinct and none is `customSearchParent`, `separator` or `manage`. |
| Background.SearchUrl | background.js:52 | `url.replace('%s', encodeURIComponent(sel))` equals the literal splice of the encoded selection at the first `%s`, because the encoding has no `$`. A template without `%s` is opened unchanged. |
| Background.SearchUrlSplice | background.js:52 | For a template `prefix + "%s" + suffix` whose prefix has no `%s`, the search url is `prefix + encoded + suffix`. Later `%s` stay verbatim. |
| Background.Route | background.js:45-57 | A click opens the options page if and only if the id is `manage`. It opens a tab if and only if the id is not `manage`, the parent is `customSearchParent` and some entry has the id. The tab url comes from the first entry with that id. |
| Background.MenuClicksRoute | background.js:45-57 | Every node of the built menu routes as intended. Manage opens options. A leaf opens its own entry's search url when ids are usable. The separator does nothing. |
| Background.RootClickIsNoOp | background.js:45-57 | A click on the parent item itself, which has no parent, does nothing. |
| Text.Trim | options.js:52-53 | The result is a slice of the input that cuts only trimmable characters from its two ends, and it neither starts nor ends with a trimmable character. It is empty if and only if every input character is trimmable. |
| Text.TrimCharacterised | options.js:52-53 | A string is the trim of the input if and only if it is a slice cutting only trimmable characters from both ends and neither starts nor ends with one. |
| Text.TrimIdempotent | options.js:52-53 | Trimming twice is trimming once. |
| Text.NormalizeName | options.js:128 | `trim().toUpperCase()` is the upper-cased trim of the input. It is upper-case and trimmed, and empty if and only if the trimmed input is. |
| Text.NormalizeNameIdempotent | options.js:128 | A stored name normalises to itself. |
| Text.ToUpper | options.js:128 | Every lower-case ASCII letter becomes its capital, and every other character and the length are kept. |
| Text.IndexOf | background.js:52 | `None` if and only if the pattern is absent. Otherwise the pattern occurs at the result and at no earlier position. |
| Text.ReplaceFirst | background.js:52 | The first occurrence is replaced, the prefix before it and the suffix after it are kept, and the length changes by the difference of the two lengths. |
| Text.ReplaceFirstUndo | background.js:52 | Putting the pattern back where the replacement went recovers the input. |
| Text.ReplaceFirstKeepsLaterOccurrences | background.js:52 | Every later occurrence of `%s` survives, shifted by the length difference. |
| Text.JsReplace | background.js:52 | `String.prototype.replace` with a string pattern leaves a string without the pattern unchanged. When the replacement has no `$`, it is the literal first-occurrence splice. |
| Text.Expand | background.js:52 | GetSubstitution leaves a replacement without `$` as it is. |
| Text.JsReplaceExpandsDollar | background.js:52 | `$&` in a replacement does expand to the matched text, so the no-`$` premise is needed. |
| Uri.EncodeUriComponent | background.js:52 | The encoding has no `$` and contains only unreserved characters and `%`. It is never shorter than the input, and equals the input exactly when every character is unreserved. |
| Uri.EncodeConcat | background.js:52 | Encoding distributes over concatenation. |
| Uri.EncodeSpaceBetweenWords | background.js:52 | A space between two unreserved words becomes `%20`. |
| UriDecode.DecodeEncode | background.js:52 | `decodeURIComponent(encodeURIComponent(s))` is `s` for every string. |
| UriDecode.DecodeUriComponent | background.js:52 | Decoding leaves text without `%` as it is. A decoded result is never longer than its input, and has the same length only when there was no `%`. |
| UriDecode.EncodeInjective | background.js:52 | Two selections with the same encoding are equal. |
| UriDecode.Utf8RoundTrip | background.js:52 | The UTF-8 bytes the encoder escapes announce their own length, and decode back to the code point. |
| Store.FindUrl | background.js:50 | `find` gives `None` if and only if no entry has the id. Otherwise it gives the first entry with the id. |
| Store.FindVariable | options.js:150 | `find` gives `None` if and only if no variable has the name. Otherwise it gives the first variable with the name. |
| Store.Lookup | options.js:210 | `None` if and only if no override has the key. Otherwise it gives the value of the first override with the key. |
| Store.LookupUnique | options.js:210 | With unique keys, a lookup gives `v` if and only if `{key, v}` is stored. |
| Store.FindFirst | options.js:70 | `find` gives `None` if and only if no element satisfies the predicate. Otherwise it gives an element that does, and no earlier element does. |
| Seqs.FilterSelects | options.js:82 | For every input and predicate, the result of `filter` selects exactly the elements that satisfy the predicate, each once and in order. |
| Seqs.SelectsUnique | options.js:82 | At most one sequence selects the elements that satisfy a predicate, so the selection pins the result of `filter`. |
| Seqs.Filter | options.js:82 | The result is no longer than the input, and every element is drawn from the input and satisfies the predicate. |
| UrlOps.AddUrl | options.js:49-64 | Nothing is written while an entry is being edited. Otherwise the entry is written if and only if both trimmed fields are non-empty. The written list is the old list plus `{newId, trimmed name, trimmed url}`, and the other keys are unchanged. |
| UrlOps.RemoveUrl | options.js:80-85 | The new list selects exactly the entries with another id, each once and in order. An unknown id changes nothing, and a known id shortens the list. Variables and environments are untouched. |
| UrlOps.UpdateUrl | options.js:88-106 | Written if and only if an id is being edited and both trimmed fields are non-empty. Length and ids are unchanged. Entries with the edited id get the new name and url, and all others are unchanged. |
| UrlOps.BeginUrlEdit | options.js:68-79 | For a known id, the form gets the name and url of the first entry with that id and records the id as being edited. For an unknown id the form is unchanged. |
| UrlOps.ResubmitUnchangedEditIsIdentity | options.js:68-106 | Opening an entry for editing and saving the form unchanged writes the same snapshot. |
| UrlOps.AddThenRemoveUrl | options.js:49-85 | Adding under a fresh id and then removing that id restores the snapshot. |
| UrlOps.RemovedEntryClickIsNoOp | options.js:80-85 | After a removal, a click on a stale leaf with that id opens nothing. |
| UrlOps.UpdateKeepsUsableIds | options.js:93-95 | An update keeps the saved ids usable for the menu. |
| UrlOps.UpdatedEntryRoutesToNewUrl | options.js:93-95 | After an update, the edited leaf opens the search url of the new template. |
| UrlOps.UpdateKeepsMenuIds | options.js:93-95 | An update leaves every menu node's id in place. |
| VariableOps.AddVariable | options.js:125-144 | Nothing happens while editing or when the normalised name or trimmed default is empty. A name in use is refused with "Variable with this name already exists." Otherwise `{NAME, default}` is appended. |
| VariableOps.RemainingVariables | options.js:162 | The result selects exactly the variables with another name, each once and in order. The name is gone. |
| VariableOps.WithoutKey | options.js:164 | The overrides left are exactly those with another key, each once and in order. When no override has the key, the list is unchanged. |
| VariableOps.WithoutKeyIn | options.js:163-166 | Every environment keeps its id and name. Its lookup of the removed name is `None`, and every other lookup is unchanged. |
| VariableOps.RemoveVariable | options.js:160-172 | The variables left are exactly those with another name, each once and in order. In every environment the overrides left are exactly those with another key, so the name looks up to nothing and every other lookup is unchanged. The urls are untouched. |
| VariableOps.RenameKeyLookup | options.js:187 | After re-keying `from` to an unused `to`, the lookup of `to` gives what `from` gave. `from` gives `None`, and every other key is unchanged. |
| VariableOps.RenameKey | options.js:187 | Same length and values. Every override keyed by the old name gets the new key, and every other override is unchanged. |
| VariableOps.RenameVariable | options.js:183-185 | Same length. Every variable with the edited name becomes `{name, defaultValue}`, and every other variable is unchanged. |
| VariableOps.RenameKeyIn | options.js:186-189 | Every environment keeps its id and name, and its overrides are re-keyed from the old name to the new one. |
| VariableOps.UpdateVariable | options.js:175-201 | Refused with "Another variable with this name already exists." if and only if a different variable holds the new name. Written if and only if a variable is being edited, both normalised fields are non-empty and the name is free. Then the edited variable gets the new name and default, and overrides are re-keyed in every environment. |
| VariableOps.BeginVariableEdit | options.js:148-158 | For a known name, the form gets the name and default of the first variable with that name and records the name as being edited. For an unknown name the form is unchanged. |
| VariableOps.ResubmitUnchangedVariableIsIdentity | options.js:148-201 | Opening a variable for editing and saving it unchanged writes the same snapshot. |
| VariableOps.AddVariablePreservesValid | options.js:125-144 | Adding keeps names unique and upper-case, and overrides declared. |
| VariableOps.RemoveVariablePreservesValid | options.js:160-172 | Removing, with the cascade into environments, keeps the snapshot valid. No override is left for a missing variable. |
| VariableOps.UpdateVariablePreservesValid | options.js:175-201 | A rename keeps the snapshot valid, and the re-keyed overrides still belong to declared variables. |
| VariableOps.RenameCarriesValues | options.js:186-189 | A rename carries each environment's override to the new name and leaves the old name without an override. Other overrides and all counts are unchanged. |
| VariableOps.AddThenRemoveVariable | options.js:125-172 | Adding a fresh variable and then removing it restores the snapshot. |
| EnvironmentOps.AddEnvironment | options.js:262-277 | Ignored if and only if the normalised name is empty. Refused with "Environment with this name already exists." if and only if the name is in use. Otherwise `{newId, NAME, []}` is appended. |
| EnvironmentOps.RemoveEnvironment | options.js:279-291 | Written if and only if there is an id and the user confirms. The environments left are exactly those with another id, each once and in order. |
| EnvironmentOps.RenameEnvironment | options.js:313-327 | Ignored if and only if the normalised name is empty or equals the shown name. Refused if and only if another environment holds it. Otherwise only that environment's name changes. |
| EnvironmentOps.RenameEnvironmentIn | options.js:322-324 | Same length, ids and values. Every environment with the id gets the new name, and every other environment is unchanged. |
| EnvironmentOps.SetValue | options.js:364-373 | When the key is present, every override with it gets the new value in place and every other override is unchanged. When it is missing, `{key, value}` is appended at the end. Either way the key looks up to the new value, every other lookup is unchanged, and unique keys stay unique. |
| EnvironmentOps.Overwrite | options.js:364-370 | Same length and keys. Every override with the key gets the new value, and every other override is unchanged. |
| EnvironmentOps.SaveEnvValue | options.js:355-382 | Every environment with the id gets exactly the overrides `SetValue` gives for the trimmed value. The key then looks up to that value and other keys are unchanged. Other environments, urls and variables are untouched. |
| EnvironmentOps.ListedValue | options.js:209-215 | The listing shows the saved override when it is non-empty. Otherwise it shows `(default: <default>)`. |
| EnvironmentOps.EditorValueAsWritten | options.js:336 | The editor opens empty when no non-empty override is saved, and also when the override begins with `(default:`. Otherwise it shows the override. |
| EnvironmentOps.EditorValueAsWrittenLosesValue | options.js:336 | A saved override `(default: x)` opens in the editor as empty. |
| EnvironmentOps.SaveUnchangedAsWrittenBlanks | options.js:336-382 | For every environment whose override begins with `(default:`, saving the page's editor content unchanged replaces that override with the empty string. |
| EnvironmentOps.EditorValue | options.js:336 | The corrected editor shows the stored override, or empty when none is stored. |
| EnvironmentOps.SaveThenEditShowsSaved | options.js:355-382 | Saving a value and reopening the corrected editor shows exactly the trimmed value saved. |
| EnvironmentOps.EditorValuesAgree | options.js:336 | The page's editor and the corrected one agree unless the override begins with `(default:`. |
| EnvironmentOps.AddEnvironmentPreservesValid | options.js:262-277 | Adding under a fresh id keeps ids and names unique and names upper-case. |
| EnvironmentOps.RemoveEnvironmentPreservesValid | options.js:283-290 | Removing keeps the snapshot valid. |
| EnvironmentOps.RenameEnvironmentPreservesValid | options.js:313-327 | Renaming keeps names unique and upper-case. |
| EnvironmentOps.RenameEnvironmentBack | options.js:313-327 | Renaming an environment and then renaming it back to its trimmed stored name restores the snapshot. |
| EnvironmentOps.AddThenRemoveEnvironment | options.js:262-291 | Adding an environment under a fresh id and then removing it, confirmed, restores the snapshot. |
| EnvironmentOps.SaveEnvValuePreservesValid | options.js:355-382 | Saving an override for a declared variable keeps keys unique and declared. |
| DataOps.Import | options.js:403-433 | Written if and only if all three fields are arrays, and then exactly those arrays are stored. A syntax error, `null` and anything else are each refused with their message. |
| DataOps.Export | options.js:385-391 | The exported record holds the three stored lists, each as an array. |
| DataOps.ExportImportRoundTrip | options.js:385-433 | Importing what was exported restores the snapshot. |
| DataOps.ImportExportRoundTrip | options.js:385-433 | Exporting what an import wrote gives back the imported record. |

## Left out

- The DOM is not modelled: rendering lists, showing and hiding buttons, collapsible sections, focus. Each handler is modelled from the snapshot it reads to the outcome it produces.
- `chrome.storage`, `chrome.contextMenus` and `chrome.tabs` are not modelled as I/O. Each read–modify–write is one function of the snapshot read. The asynchronous callbacks and the interleaving of two handlers are not modelled.
- The `Date.now()` ids (`custom-search-…`, `env-…`) are parameters. Their freshness is a precondition of the lemmas that need it.
- `alert` is not modelled as a call. It becomes `Rejected` with the message it would show. `confirm` is a boolean parameter.
- JSON text, `Blob`, `FileReader` and the download of the export are not modelled. Export yields the record that is serialised. Import starts from the parsed document or from its syntax error. An empty file choice returns before any of this.
- DataOps.Parsed: imported array elements are assumed to have the record shapes `{id, name, url}`, `{name, defaultValue}` and `{id, name, values}`. The code writes any array as it is, for example an array of numbers or environments without `values`. Later callbacks then throw, for example `urlItem.url.replace` at `background.js:52` or `env.values.filter` at `options.js:164`. The model cannot represent such a document.
- EnvironmentOps.ListedValue: the listed text goes through `innerHTML` and is read back as `textContent` (`options.js:215`, `options.js:336`). An override containing markup such as `<b>` or an entity such as `&amp;` therefore reaches the editor altered. The model treats the listed text as the string itself, so only the `(default:` part of that loss is modelled.
- DataOps.Import: the elements of the imported arrays are not checked by the code either. An import can therefore write a snapshot that is not `Valid`, and no preservation lemma is stated for it.
- Text.ToUpper: `toUpperCase` is modelled for the ASCII letters only. Other cased letters (for example `ß` → `SS`) are left unchanged, because full Unicode case mapping is a table this model does not carry.
- Uri.EncodeUriComponent: strings are sequences of Unicode scalar values. The lone surrogates for which the JavaScript function throws `URIError` cannot occur in the model.
- A failed `chrome.contextMenus.create`, for example on a duplicate id, is not modelled as an error. `Background.InstallMenuIdsDistinct` states exactly when none happens.
- EnvironmentOps.SaveEnvValuePreservesValid: it requires that the key is a declared variable. The page only offers editors for declared variables, but `handleSaveEnvVar` itself does not check this.
- `storage.sync` write failures and quota limits are not modelled.
- `popup.js` and its `URLSearchParams` prefill are not part of this model.
- Variables and environments are never applied to a url, because `background.js` reads only `urls`.

## Findings

| source | as written | input that shows it | evidently intended | confidence | as-written member | corrected member |
|---|---|---|---|---|---|---|
| options.js:336 | The value editor starts from the listed text and blanks any text starting with `(default:`, to hide the default placeholder. | An environment whose saved override for `HOST` is `(default: x)`: the editor opens empty, and saving it unchanged replaces the override with an empty value. | The editor shows the stored override, or is empty when there is none. | not executed | EnvironmentOps.EditorValueAsWritten | EnvironmentOps.EditorValue |
