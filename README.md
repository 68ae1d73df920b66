# Submitted file fields and checkbox-group values of a form builder

This project models two pieces of a CMS form builder (silverstripe-userforms), and proves properties about them.

1. **`SubmittedFileField`** is the answer stored for a file-upload field of a form submission. The model covers four parts:
   - **Resolution.** `getUploadedFilesFromDraft` works out which stored files the answer refers to. The many-many `UploadedFiles` set wins when it is non-empty. Otherwise the legacy `UploadedFileID` is used. Files are read in the draft stage, inside a scoped override of the versioning engine's reading mode, and the mode active before the call is restored afterwards. The result is memoised per record ID, and a memoised `null` counts as a hit.
   - **Links.** `getLinks($grant)` maps each file ID to the absolute URL of the file. It keeps only files that exist and whose URL is truthy in PHP terms.
   - **Report HTML.** `getFormattedValue` builds one fragment for each file that has a truthy link, in one of three forms:
     - the viewer may see the file;
     - the viewer is logged in without rights: lock icon and message, no link;
     - no one is logged in: link plus a "must be logged in" message.
     The fragments are joined with `<br>`, and the result is `false` when there are none. Every interpolated string goes through `htmlspecialchars(…, ENT_QUOTES)`.
   - **Export.** `getExportValue` joins the link URLs with `"\r"`. `getFileNames` lists the names of the resolved files.
2. **`EditableCheckboxGroupField::getValueFromData`** joins the values of a checkbox group with `", "`. A scalar submission counts as a list of one. While the result so far is falsy (`""` or `"0"`), the next value replaces it.

## Layout

- `Wrappers.dfy` holds `Option`, which stands for PHP's `null` next to a value.
- `PhpStrings.dfy` holds string truthiness, `implode`, and a one-character split. `SplitImplode` proves that the split undoes `implode`.
- `Html.dfy` holds `htmlspecialchars(…, ENT_QUOTES)` as a character mapping, and its decoder. `DecodeEscape` proves that decoding undoes escaping. The file also defines the markup skeleton of a string (its `<`, `>`, `"`, `'`) and shows that escaping leaves the skeleton empty.
- `PhpArray.dfy` models a PHP array with integer keys as an ordered list of entries. Assignment replaces the value of an existing key in place and appends a new key at the end.
- `SubmittedFiles.dfy` holds the file field.
  - The external services are fields of the oracle record `Env`:
    - the many-many IDs;
    - `byIDs` and `byID`;
    - `getURL`;
    - `canView`;
    - the current user;
    - `absoluteURL`;
    - the `_t` lookup.
  - The ambient reading mode is the field of a `Versioning` object.
  - The class `SubmittedFileField` holds `ID`, `UploadedFileID` and the cache. Its methods are the source's methods, with the same loops. The `foreach` of `getFormattedValue` is the module-level method `CollectFragments`, which the method calls on the resolved files.
  - Each method is proved against a specification function (`Resolve`, `LinksFor`, `FormattedValueOf`, `ExportValueOf`, `FileNamesOf`). The lemmas are stated about those functions.
- `CheckboxGroup.dfy` holds the checkbox-group join.
  - `Joined` is a closed-form reference definition: the values joined from the first truthy one on, or the last value when none is truthy.
  - The method's loop is proved to compute `Joined`.

Which links each output uses:
- The report cell uses `getLinks(false)`, the ungranted links (`code/Model/Submission/SubmittedFileField.php:61`).
- The CSV export uses `getLinks()`, whose default is `$grant = true` (`:112`, `:120`).
- The insufficient-rights message is wrapped in `<em>` (`:76`).

## Model

| member | source | states |
|---|---|---|
| `SubmittedFiles.Resolve` | code/Model/Submission/SubmittedFileField.php:148-157 | A non-empty many-many ID set resolves to `byIDs` of that set. Otherwise the result is `[file]` exactly when `byID(UploadedFileID)` finds a file, and `null` when it does not. |
| `SubmittedFiles.LegacyFileIgnored` | code/Model/Submission/SubmittedFileField.php:153-156 | When the many-many set is non-empty, the legacy `UploadedFileID` has no influence on the result. |
| `SubmittedFiles.SubmittedFileField.constructor` | code/Model/Submission/SubmittedFileField.php:49 | A new field starts with an empty resolution cache. |
| `SubmittedFiles.CachedOrResolvedCases` | code/Model/Submission/SubmittedFileField.php:144-159 | `CachedOrResolved`, what resolution returns in the current state: the cached entry for the field's ID when `array_key_exists` finds one, and otherwise the draft-stage resolution. |
| `SubmittedFiles.SubmittedFileField.GetUploadedFilesFromDraft` | code/Model/Submission/SubmittedFileField.php:142-161 | A cached entry for `ID` (a cached `null` included) is returned as is, with the cache unchanged. On a miss, the result is the draft-stage resolution, stored under `ID` before returning. The reading mode after the call equals the mode before it. |
| `SubmittedFiles.ResolveTwice` | code/Model/Submission/SubmittedFileField.php:144-159 | A second resolution returns exactly what the first one stored, even if the file store changed in between. |
| `SubmittedFiles.LinkableCases` | code/Model/Submission/SubmittedFileField.php:124-126 | `Linkable`: a file gets a link only if it exists and `getURL($grant)` returns a string. A `null`, `''` or `'0'` URL, or a missing asset, gives no link. |
| `SubmittedFiles.LinkStep` | code/Model/Submission/SubmittedFileField.php:123-131 | One step of the `array_reduce` callback. If the file is not linkable, the accumulator is returned unchanged. Otherwise it grows by at most one entry. |
| `SubmittedFiles.LinkStepEffect` | code/Model/Submission/SubmittedFileField.php:124-130 | After one step, the file's ID reads as its absolute URL when the file is linkable. Every other key, and the file's own key when it is not linkable, reads as before. A new key is appended exactly when a linkable file's ID was not yet present. |
| `SubmittedFiles.LinkOfDependsOnURL` | code/Model/Submission/SubmittedFileField.php:125-127 | `LinkOf`, the stored link `Director::absoluteURL($url)`: two linkable files with the same URL under the grant mode get the same link. |
| `SubmittedFiles.ReduceLinks` | code/Model/Submission/SubmittedFileField.php:123-131 | The `array_reduce` accumulator never holds a file ID twice. |
| `SubmittedFiles.ReduceLinksKeys` | code/Model/Submission/SubmittedFileField.php:123-131 | The links have a key for an ID if and only if some resolved file with that ID exists and has a truthy URL. |
| `SubmittedFiles.ReduceLinksInOrder` | code/Model/Submission/SubmittedFileField.php:123-131 | For files with unique IDs, the links are exactly one entry `id → absoluteURL(url)` per linkable file, in resolution order. |
| `SubmittedFiles.LookupLinkEntries` | code/Model/Submission/SubmittedFileField.php:64 | For files with unique IDs, `$links[$file->ID]` is the file's absolute URL exactly when the file is linkable, and `null` otherwise. |
| `SubmittedFiles.LinksFor` | code/Model/Submission/SubmittedFileField.php:120-134 | `getLinks` returns `null` exactly when resolution yields `null` or an empty list. |
| `SubmittedFiles.SubmittedFileField.GetLinks` | code/Model/Submission/SubmittedFileField.php:120-134 | The result is `LinksFor` of the resolution under the given grant mode (default `true`). The loop computes the `array_reduce`. The cache and reading-mode effects are those of the resolver. |
| `SubmittedFiles.MessagesDefaults` | code/Model/Submission/SubmittedFileField.php:59-82 | `MessagesOf`, the three `_t` lookups for `DOWNLOADFILE`, `INSUFFICIENTRIGHTS` and `YOUMUSTBELOGGEDIN`: when no translation is registered, they are the English defaults. |
| `SubmittedFiles.AccessOf` | code/Model/Submission/SubmittedFileField.php:70-71 | The viewer can view exactly when `canView()` holds. Otherwise they are logged in without rights exactly when `Security::getCurrentUser()` returns a member, and not logged in exactly when it returns nothing. |
| `SubmittedFiles.FragmentStarts` | code/Model/Submission/SubmittedFileField.php:73-98 | `Fragment`, the HTML for one file: a logged-in viewer without rights (`LoggedInWithoutRights`) gets the lock icon, a space and the escaped name. A viewer who can view the file, and a viewer who is not logged in, get the escaped name followed by ` - <a href="`, the escaped link and the closing quote. |
| `SubmittedFiles.FragmentForCases` | code/Model/Submission/SubmittedFileField.php:63-66 | `FragmentFor`: a file contributes at most one fragment. It contributes one exactly when `$links[$file->ID]` is present and truthy, so files without a link are skipped. |
| `SubmittedFiles.FragmentsOfAtMostOnePerFile` | code/Model/Submission/SubmittedFileField.php:63-100 | `FragmentsOf`: the loop over the files collects at most one fragment per file. |
| `SubmittedFiles.CollectFragments` | code/Model/Submission/SubmittedFileField.php:63-100 | The `foreach` with its three viewer branches returns exactly `FragmentsOf` the links and the files. |
| `SubmittedFiles.FormattedValueOf` | code/Model/Submission/SubmittedFileField.php:61-102 | `null` links give `false`. An HTML result always comes from at least one fragment. |
| `SubmittedFiles.FragmentsOfAgree` | code/Model/Submission/SubmittedFileField.php:63-100 | When the link lookup agrees with each file's own link, the loop's fragments are one fragment per shown file, in order. |
| `SubmittedFiles.FormattedValueShowsLinkedFiles` | code/Model/Submission/SubmittedFileField.php:57-103 | For files with unique IDs, the report cell is the `<br>`-join of one fragment per file that exists and has a truthy ungranted link, in resolution order. It is `false` when there is no such file. |
| `SubmittedFiles.LockedFragmentHidesLink` | code/Model/Submission/SubmittedFileField.php:70-79 | A logged-in viewer without rights gets a fragment that does not depend on the link, so the link is never shown to them. |
| `SubmittedFiles.FragmentMarkupIsTemplate` | code/Model/Submission/SubmittedFileField.php:73-98 | In every branch, the `<`, `>`, `"` and `'` of a fragment are exactly those of its template. No file name, link or translated message can open or close a tag or an attribute. |
| `SubmittedFiles.SubmittedFileField.GetFormattedValue` | code/Model/Submission/SubmittedFileField.php:57-103 | The result is `FormattedValueOf` the resolution and its `getLinks(false)` links. The fragments come from `CollectFragments`. The cache and reading-mode effects are those of the resolver. |
| `SubmittedFiles.ExportValueOf` | code/Model/Submission/SubmittedFileField.php:110-113 | `null` or empty links give `''`. |
| `SubmittedFiles.ExportValueSplits` | code/Model/Submission/SubmittedFileField.php:112 | If no URL contains a carriage return, splitting the export value on `"\r"` gives back the link values in order. |
| `SubmittedFiles.ExportValueListsLinkedFiles` | code/Model/Submission/SubmittedFileField.php:110-131 | For files with unique IDs and no carriage return in any URL, the export value splits into the granted links of the linkable files, in resolution order. |
| `SubmittedFiles.SubmittedFileField.GetExportValue` | code/Model/Submission/SubmittedFileField.php:110-113 | The result is `ExportValueOf` the granted (`getLinks()` default) links of the resolution. |
| `SubmittedFiles.Names` | code/Model/Submission/SubmittedFileField.php:171 | Same length as the files, and the i-th entry is the i-th file's `Name`. |
| `SubmittedFiles.FileNamesOf` | code/Model/Submission/SubmittedFileField.php:168-174 | `null` exactly when resolution yields `null` or an empty list. Otherwise the names of the files, with the same length and order. |
| `SubmittedFiles.SubmittedFileField.GetFileNames` | code/Model/Submission/SubmittedFileField.php:168-174 | The result is `FileNamesOf` the resolution. The cache and reading-mode effects are those of the resolver. |
| `SubmittedFiles.NoReferenceNothingShown` | code/Model/Submission/SubmittedFileField.php:150-173 | A record with no many-many files and no legacy file resolves to `null`. Both link modes give `null`, the report cell is `false`, the export is `''` and the names are `null`. |
| `Html.EscapeChar` | code/Model/Submission/SubmittedFileField.php:77-78 | The replacement for one character is non-empty and contains none of `<`, `>`, `"`, `'`. |
| `Html.HtmlSpecialChars` | code/Model/Submission/SubmittedFileField.php:77-97 | The escaped string is at least as long as the input and contains no `<`, `>`, `"` or `'`. |
| `Html.DecodeEscape` | code/Model/Submission/SubmittedFileField.php:77-97 | Escaping loses nothing: `htmlspecialchars_decode(htmlspecialchars(s, ENT_QUOTES), ENT_QUOTES) == s`. |
| `Html.MarkupOfEscaped` | code/Model/Submission/SubmittedFileField.php:77-97 | An escaped string has an empty markup skeleton. |
| `PhpStrings.TruthyByLength` | code/Model/Submission/SubmittedFileField.php:64 | PHP string truthiness (`Truthy`), as used for `!$link` (:64), `if ($url)` (:126) and `!$result` in the checkbox join: only `''` and `'0'` are falsy, and every string of two or more characters is truthy. |
| `PhpStrings.Implode` | code/Model/Submission/SubmittedFileField.php:102 | `implode` of no parts is `''`. Otherwise the result starts with the first part, and with two or more parts it starts with the first part followed by the separator. |
| `PhpStrings.SplitImplode` | code/Model/Submission/SubmittedFileField.php:112 | Splitting on a one-character separator undoes `implode` when no part contains that character. |
| `PhpArray.Put` | code/Model/Submission/SubmittedFileField.php:127 | `$links[$id] = $url` keeps the key list when the key is present, and appends a new key at the end. |
| `PhpArray.LookupPut` | code/Model/Submission/SubmittedFileField.php:127 | After the assignment the key reads as the new value, and every other key reads as before. |
| `PhpArray.Lookup` | code/Model/Submission/SubmittedFileField.php:64 | `$links[$k] ?? null` is `null` exactly when `k` is not a key. |
| `PhpArray.Values` | code/Model/Submission/SubmittedFileField.php:112 | The values `implode` sees, one per entry, in order. |
| `CheckboxGroup.Entries` | code/editor/EditableCheckboxGroupField.php:26-30 | A scalar submission becomes a one-element list. An array gives its values in iteration order. |
| `CheckboxGroup.FirstTruthy` | code/editor/EditableCheckboxGroupField.php:33 | The position of the first value PHP treats as true. Every earlier value is falsy. |
| `CheckboxGroup.Accumulate` | code/editor/EditableCheckboxGroupField.php:33-37 | One loop step. A falsy result is replaced by the value. A truthy result is kept as a prefix, followed by `", "` and then exactly the value. |
| `CheckboxGroup.JoinedSnoc` | code/editor/EditableCheckboxGroupField.php:32-38 | One loop step (replace a falsy result, append `", " . $value` to a truthy one) maps the reference value of a prefix to the reference value of the longer prefix. |
| `CheckboxGroup.GetValueFromData` | code/editor/EditableCheckboxGroupField.php:24-41 | The loop returns `Joined` of the submitted values. |
| `CheckboxGroup.ScalarUnchanged` | code/editor/EditableCheckboxGroupField.php:28-30 | A scalar submission comes back unchanged. |
| `CheckboxGroup.NoEntriesEmpty` | code/editor/EditableCheckboxGroupField.php:25-40 | An empty array gives `''`. |
| `CheckboxGroup.AllTruthyJoined` | code/editor/EditableCheckboxGroupField.php:32-38 | For any list, including the empty one: when every value is truthy, the result is all values joined with `", "` in order. |
| `CheckboxGroup.KeysIgnored` | code/editor/EditableCheckboxGroupField.php:32 | Arrays with the same values in the same order give the same result, whatever their keys. |
| `CheckboxGroup.LeadingFalsyDropped` | code/editor/EditableCheckboxGroupField.php:33-34 | A leading falsy value is dropped when more values follow. |
| `CheckboxGroup.NoLeadingSeparator` | code/editor/EditableCheckboxGroupField.php:33-37 | The result starts with the first truthy value. When no value is truthy, it is the last value, or `''` when there are none. It therefore never starts with an added `", "`. |
| `CheckboxGroup.ImplodeFromTruthy` | code/editor/EditableCheckboxGroupField.php:35-37 | Values joined from a truthy first value are truthy. |
| `CheckboxGroup.TruthyStaysTruthy` | code/editor/EditableCheckboxGroupField.php:35-37 | Once the result is truthy, it stays truthy, and each later value is appended after `", "`. |

## Left out

- `code/Model/UserDefinedForm.php` is static page configuration and holds no logic.
- The ORM declarations of `SubmittedFileField` (`$has_one`, `$many_many`, `$owns`, `$cascade_deletes`, `$table_name`) are persistence metadata. The cascading delete belongs to the ORM.
- These services are oracles in `Env` with no implementation:
  - the internals of the file store and the versioning engine: `byIDs`, `byID`, the many-many query, and the order the database returns;
  - `getURL`, `exists`, `canView`, `Director::absoluteURL` and `Security::getCurrentUser`.
- `Versioned::withVersionedMode` is modelled as save, set, and restore of the reading-mode field. The model has no exceptions, so the model does not cover restoring the mode on an error path. A storage failure is likewise not modelled: the code does not handle one.
- `_t` is the oracle `translate(key, default)`, called with the class-qualified keys and the English defaults of the source. Its result is escaped like any other string.
- `DBField::create_field('HTMLText', …)` is treated as the plain HTML string it wraps (`HtmlText`).
- `htmlspecialchars` is modelled on characters. Its refusal of invalid UTF-8 input (an empty result) is not modelled, because the model has no byte encoding.
- `EditableCheckboxGroupField::getFormField` is not modelled. It builds a UI widget from foreign form classes.
- `GetValueFromData` requires the field's name to be a key of the submitted data. A missing key is a PHP warning plus a `null` value. `null` and non-string entries are coerced by PHP. Neither is modelled: values are strings.
- `FormattedValueShowsLinkedFiles`, `ReduceLinksInOrder`, `LookupLinkEntries` and `ExportValueListsLinkedFiles` are stated for resolved files with unique IDs, which is what a database query returns. For duplicate IDs the model keeps PHP's semantics (the key keeps its first position and takes the last value) and proves only `ReduceLinksKeys` and `ReduceLinks`' distinct keys.
- Concurrency and request scoping of the cache are not modelled. Each method runs as one sequential call.
