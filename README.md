# SFT Number Generator: bulk-registration parser

The SFT Number Generator is a Streamlit web form that hands out unique "SFT"
numbers to registered applications. Its bulk-registration page takes a block
of text with one application per line, written `AppName | Description`. It
turns the block into a list of `{name, description}` entries and passes the
list to the number allocator. Afterwards it counts how many registrations
succeeded.

This project models that parser and the success tally in Dafny:

- `py_str.dfy` (module `PyStr`) models the Python string built-ins the parser uses.
  - `str.strip()`: whitespace is exactly what `str.isspace()` accepts.
  - `str.split(sep)`, scanning for each separator with `Find` as CPython does.
  - `str.split(sep, 1)`.
- `bulk_registration.dfy` (module `BulkRegistration`) models the parser itself.
  - `ParseLine` handles one line.
  - `ParseBulk` is the loop over the lines, written as a method with a loop invariant. It is proved equal to the specification function `BulkApplications`.
  - `HandleBulkInput` models the three-way decision of the page: nothing entered, no valid application, or register.
  - `SuccessCount` models the success tally.
- `wrappers.dfy` (module `Wrappers`) holds the `Option` type. A dropped line yields `None`, and so does a missing SFT number.

The main results:

- Strip is pinned down completely. `StripUnique` and `StripDecompose` show that its result is the text left between a whitespace prefix and a whitespace suffix, and that it has no whitespace at either end.
- `Split` and `Join` are inverses (`JoinSplit`, `SplitJoin`). `SplitOnce` is the unique split at the first separator (`SplitOnceUnique`).
- Every entry is `WellFormed`: its name is non-empty, has no surrounding whitespace and contains no `|`, and its description has no surrounding whitespace.
- Entries appear in line order. Each entry comes from exactly one kept line, and a line is kept exactly when its name is non-empty (`ParseLinesOrder`).
- The result does not change when whitespace is added around the input (`BulkApplicationsPadding`). After the whole-input strip, the first and last lines are never blank (`StrippedLinesNotBlank`).

In `streamlit_app.py:177` the code reads `parts[1].strip() if len(parts) > 1 else ""`. That branch only runs after `'|' in line` has been checked, so `line.split('|', 1)` always has two parts and the `else ""` can never be taken. The model keeps the test as written. `SplitOnce`'s contract shows the two-part case is the only one that can arise there.

## Model

| member | source | states |
|---|---|---|
| `PyStr.IsSpaceRanges` | streamlit_app.py:169-179 | the whitespace every `strip()` in the parser removes is exactly what `str.isspace()` accepts: U+0009-U+000D, U+001C-U+0020, U+0085, U+00A0, U+1680, U+2000-U+200A, U+2028, U+2029, U+202F, U+205F and U+3000 (29 characters) |
| `PyStr.Strip` | streamlit_app.py:170 | the stripped text has no whitespace at either end, is empty exactly when the input is all whitespace, and is no longer than the input |
| `PyStr.StripBounds` | streamlit_app.py:170 | when only whitespace lies outside a slice that neither starts nor ends with whitespace, that slice is the stripped text |
| `PyStr.StripExcludes` | streamlit_app.py:174-179 | a character absent from the input is absent from its stripped form, so a name cut from before the first `\|` holds no `\|` |
| `PyStr.StripDecompose` | streamlit_app.py:170 | the input is the stripped text with a whitespace-only prefix and a whitespace-only suffix |
| `PyStr.StripUnique` | streamlit_app.py:170 | a string with no whitespace at either end, padded by any whitespace, strips back to itself, so strip is fully determined |
| `PyStr.StripIdempotent` | streamlit_app.py:170 | a property of `str.strip()` itself, not a step the parser takes: stripping an already stripped string changes nothing |
| `PyStr.StripPadding` | streamlit_app.py:169-170 | whitespace added before or after a string does not change its stripped form |
| `PyStr.Find` | streamlit_app.py:174-175 | the scan from a position returns the first separator at or after it, or the length when there is none |
| `PyStr.SplitOnce` | streamlit_app.py:175 | `split(sep, 1)` is `[s]` when the separator is absent, else two parts: the text before the first separator (which holds no separator) and the rest, which rejoin to `s` |
| `PyStr.SplitOnceUnique` | streamlit_app.py:175 | for any text `before` free of the separator, `split(sep, 1)` of `before + sep + after` is exactly `[before, after]`, even when `after` holds more separators |
| `PyStr.Split` | streamlit_app.py:170 | `split('\n')` always yields at least one piece, even for empty text |
| `PyStr.SplitUnfold` | streamlit_app.py:170 | splitting is `split(sep, 1)` followed by a split of the remainder |
| `PyStr.SplitPiecesFree` | streamlit_app.py:170 | no piece of a split contains the separator |
| `PyStr.JoinSplit` | streamlit_app.py:170 | joining the pieces of a split with the separator restores the input |
| `PyStr.SplitJoin` | streamlit_app.py:170 | splitting separator-free pieces joined by the separator gives the same pieces back |
| `PyStr.SplitFirstChar` | streamlit_app.py:170 | text that does not start with the separator has a non-empty first piece starting with the same character |
| `PyStr.SplitLastChar` | streamlit_app.py:170 | text that does not end with the separator has a non-empty last piece ending with the same character |
| `PyStr.SplitLength` | streamlit_app.py:170 | the number of lines is the number of newlines plus one |
| `BulkRegistration.ParseLine` | streamlit_app.py:174-183 | every entry a line yields is well formed: a non-empty name with no surrounding whitespace and no `\|`, and a description with no surrounding whitespace |
| `BulkRegistration.ParseLineWithSeparator` | streamlit_app.py:174-177 | for a line `before \| after` with no `\|` in `before`: the line is dropped when `before` strips to empty; otherwise the name is `before` stripped and the description is `after` stripped, later `\|` included |
| `BulkRegistration.ParseLineWithoutSeparator` | streamlit_app.py:178-183 | a line without `\|` is dropped when it strips to empty, otherwise it is a name (the stripped line) with an empty description |
| `BulkRegistration.BlankLineDropped` | streamlit_app.py:178-182 | the line `"   "` yields no entry |
| `BulkRegistration.EmptyNameDropped` | streamlit_app.py:174-182 | the line `"\|x"` yields no entry, although it has a description |
| `BulkRegistration.BlankNameDropped` | streamlit_app.py:174-182 | the line `" \| desc"` yields no entry, although it has a description |
| `BulkRegistration.ParseLines` | streamlit_app.py:171-183 | the parsed list has at most one entry per line, and every entry is well formed |
| `BulkRegistration.ParseLinesOrder` | streamlit_app.py:173-183 | the k-th entry is the entry of the k-th kept line; kept line indices increase; a line is kept exactly when its name is non-empty |
| `BulkRegistration.ParseLinesSnoc` | streamlit_app.py:173-183 | parsing one more line appends that line's entry if it has one and otherwise leaves the list unchanged |
| `BulkRegistration.InputLines` | streamlit_app.py:170 | the stripped input splits into at least one line, none containing a newline |
| `BulkRegistration.BulkApplications` | streamlit_app.py:170-183 | the list the form submits: the entries of the lines of the stripped input, at most one per line, each well formed (its order, padding, blank-input and single-line properties are the lemmas below) |
| `BulkRegistration.ParseBulk` | streamlit_app.py:169-183 | the loop's result equals the specification `BulkApplications`, every entry is well formed, and a blank input gives no entries |
| `BulkRegistration.BulkApplicationsSingleLine` | streamlit_app.py:170-180 | no name or description contains a newline |
| `BulkRegistration.BulkApplicationsPadding` | streamlit_app.py:169-170 | whitespace before or after the whole input does not change the parsed list |
| `BulkRegistration.BulkApplicationsBlank` | streamlit_app.py:169-170 | an empty or all-whitespace input yields no entries |
| `BulkRegistration.StrippedLinesNotBlank` | streamlit_app.py:170 | a non-empty stripped text, such as a non-blank input after the strip, splits into a first line that is non-empty and starts with a non-whitespace character and a last line that is non-empty and ends with one |
| `BulkRegistration.HandleBulkInput` | streamlit_app.py:169-207 | the "enter at least one application" branch is taken exactly for blank input, "no valid applications" exactly when the input is not blank but every line is dropped, and otherwise the non-empty parsed list is registered |
| `BulkRegistration.SuccessCount` | streamlit_app.py:190 | the tally is at most the number of results; it equals that number exactly when every result succeeded, and it is zero exactly when none did |
| `BulkRegistration.SuccessCountAppend` | streamlit_app.py:190 | the tally of two result lists joined together is the sum of their tallies |
| `BulkRegistration.SuccessCountExact` | streamlit_app.py:190 | the tally is exactly the number of results whose `success` is true |
| `BulkRegistration.SuccessesSnoc` | streamlit_app.py:190 | one more result adds its position to the successful ones exactly when it succeeded |

## Left out

- The number allocator (`register_application`, `bulk_register_applications`, `reserve_specific_number`, `is_number_available`, `get_statistics`) lives in `sft_number_generator.py`, which is not part of this model. The bulk results are therefore an input to `SuccessCount`, not something the model computes.
- SuccessCount: is bounded by the number of results, not by the number of parsed applications. The bound of `streamlit_app.py:191` also relies on the allocator returning one result per application, and the allocator is not modelled.
- The single-application form (`streamlit_app.py:120-154`) and the reserve form (`streamlit_app.py:209-262`) only strip their inputs and call the allocator. They are not modelled.
- The Streamlit page layout, widgets, CSS, session state, spinners and messages are user-interface plumbing and are not modelled. `HandleBulkInput` stands for the choice between the three messages.
- Reading `sft_records.xlsx` and the Excel/CSV/base64 exports are file I/O through pandas and openpyxl. They are not modelled.
- Usage percentages, the progress ratio and the average number are floating-point display arithmetic. They are not modelled.
- `script_1.py` and `chart_script.py` only write fixed text files or draw a fixed diagram. They contain no logic to model.
