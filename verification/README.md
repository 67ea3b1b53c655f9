# Bill-upload page: sanitizer, export name and session store in Dafny

The Streamlit page `google_sheet_display.py` lets a user upload a photo of a
bill, posts it to a webhook that returns CSV text, loads that text into a
table, lets the user edit the table and save the edits in the session, and
offers the table for download as CSV. Almost all of it is widget wiring. This
project models the three pieces of logic in it:

- **The response sanitizer** (`sanitizer.dfy`, module `Sanitizer`). The reply
  text is first passed through `str.strip()`, then through `str.rstrip` with
  the characters `"` `'` `,` space LF CR TAB. `RStrip`, `LStrip` and `Strip`
  take the character class as a predicate. The one-sided strips are
  recursive functions whose contracts characterise them completely (prefix or
  suffix of the input, everything removed is in the class, the result does
  not itself begin or end in it). `Sanitize` is their composition.
  Lemmas state that it is total, that its result is a contiguous slice of the
  input, that it does not start with whitespace or end in a stripped
  character, and exactly when a second pass changes nothing.
- **The export file name** (`file_name.dfy`, module `FileName`). It takes the
  stored origin name, or `edited_sheet.csv` when none is stored. It keeps the
  text before the last `.` (`rsplit(".", 1)[0]`) and appends `_edited.csv`.
  `RSplitOnce` is proved to split around the last separator and to join back
  to its input. `ExportName` is characterised in both cases (with and
  without a `.`), and the page's concrete names are derived from that.
- **The session store** (`session.dfy`, module `Session`). `st.session_state`
  becomes a class with the two keys the page writes, `df` and
  `originalFilename`, both optional. `Convert` models the reply check, the
  sanitize and the parse, and stores both keys only after all of them
  succeed. `SaveChanges` replaces only `df`. `Offer` models the download
  button, which is shown only while `df` is present. `Rerun` models one
  top-to-bottom run of the script.

Whitespace is Python's `str.isspace()` set, written out in full: the ASCII
controls TAB, LF, VT, FF, CR, the separators 0x1C-0x1F, space, and the
Unicode spaces and line/paragraph separators.

The second strip's character set contains no backslash. The comment on line
60 speaks of a backslash, but `\'` in the literal is an escaped quote. The
model follows the code, and `SanitizeKeepsBackslash` shows a trailing
backslash surviving. The full clean is not idempotent on every input:
`"a<VT>'"` becomes `"a<VT>"`, and a second pass strips the vertical tab.
`SanitizeIdempotent` therefore carries the precondition that the text holds
no whitespace other than space, TAB, LF and CR, and
`SanitizeNotIdempotentInGeneral` gives the counterexample.

The webhook reply is a parameter (`Reply(status, body)` or `NoReply`).
`raise_for_status` fails for statuses 400 to 599. `pd.read_csv` is an opaque
total function parameter `readCsv: string -> Option<Table>`, where `None`
means it raised. The table type is a type parameter.

## Model

| member | source | states |
|---|---|---|
| `Sanitizer.IsWhitespace` | google_sheet_display.py:59 | the default set of `str.strip()`, i.e. Python's `str.isspace()`: TAB, LF, VT, FF, CR, 0x1C-0x1F, space, U+0085, U+00A0, U+1680, U+2000-U+200A, U+2028, U+2029, U+202F, U+205F, U+3000 |
| `Sanitizer.IsTrailingJunk` | google_sheet_display.py:60 | the seven characters of the literal `'"\', \n\r\t'`: double quote, single quote (the `\'` escape), comma, space, LF, CR, TAB; no backslash |
| `Sanitizer.TrailingJunkWhitespace` | google_sheet_display.py:59-60 | the characters in both sets are exactly space, LF, CR and TAB |
| `Sanitizer.RStrip` | google_sheet_display.py:60 | `rstrip(chars)` returns a prefix of the input, every dropped character is in the set, and the result is empty or does not end in the set |
| `Sanitizer.LStrip` | google_sheet_display.py:59 | the left half of `strip()`: a suffix of the input, every dropped character is in the set, and the result is empty or does not start with one from the set |
| `Sanitizer.Strip` | google_sheet_display.py:59 | `strip()` never lengthens its input, and its result is empty or neither starts nor ends with a character of the set |
| `Sanitizer.RStripCharacterized` | google_sheet_display.py:60 | if the input splits as `r + t` with `t` made only of stripped characters and `r` not ending in one, `rstrip` returns exactly `r` |
| `Sanitizer.LStripCharacterized` | google_sheet_display.py:59 | mirror of the above for the left strip |
| `Sanitizer.RStripIdempotent` | google_sheet_display.py:60 | a second `rstrip` with the same set changes nothing |
| `Sanitizer.StripKeepsTrimmed` | google_sheet_display.py:59 | `strip()` leaves a string alone when neither end is in the set |
| `Sanitizer.StripBounds` | google_sheet_display.py:59 | `strip()` returns the slice `s[i..e]`, and everything before `i` and from `e` on is in the set |
| `Sanitizer.RStripOfSlice` | google_sheet_display.py:60 | right-stripping the slice `s[i..e]` gives a slice `s[i..j]`, and `s[j..e]` is all in the set |
| `Sanitizer.StripThenRStripBounds` | google_sheet_display.py:59-60 | the two steps together return a slice `s[i..j]`; before `i` and from `e` on is whitespace, and `s[j..e]` is all in the second set |
| `Sanitizer.TrimmedEnds` | google_sheet_display.py:59-60 | when every whitespace character of the input is also in the second set, the result neither starts nor ends with whitespace |
| `Sanitizer.StripThenRStripIdempotent` | google_sheet_display.py:59-60 | under the same condition, applying both steps again changes nothing |
| `Sanitizer.Sanitize` | google_sheet_display.py:59-60 | total on every string; the result is no longer than the input, is empty or starts with a non-whitespace character, and is empty or ends in a character outside the second set |
| `Sanitizer.SanitizeBlank` | google_sheet_display.py:59-60 | empty or whitespace-only text sanitizes to the empty string instead of failing |
| `Sanitizer.SanitizeIsSlice` | google_sheet_display.py:59-60 | the input is a run of whitespace, then the result unchanged, then a run of characters from the second set, then a run of whitespace |
| `Sanitizer.SanitizeIdempotent` | google_sheet_display.py:59-60 | sanitizing twice equals sanitizing once when the text has no whitespace beyond space, TAB, LF and CR |
| `Sanitizer.StripThenRStripFixedPoint` | google_sheet_display.py:59-60 | a string that does not start with a character of the first set nor end in one of the second is left unchanged by both steps iff it does not end in a character of the first set |
| `Sanitizer.SanitizeIdempotentIff` | google_sheet_display.py:59-60 | a second pass changes nothing iff the first pass's result is empty or does not end in whitespace |
| `Sanitizer.SanitizeNotIdempotentInGeneral` | google_sheet_display.py:59-60 | without that precondition idempotence fails: a second pass over the sanitized `"a<VT>'"` changes it |
| `Sanitizer.SanitizeKeepsVerticalTab` | google_sheet_display.py:59-60 | `"a<VT>'"` sanitizes to `"a<VT>"`: the quote goes, the vertical tab stays |
| `Sanitizer.SanitizeDropsVerticalTab` | google_sheet_display.py:59-60 | `"a<VT>"` sanitizes to `"a"` |
| `Sanitizer.SanitizeKeepsBackslash` | google_sheet_display.py:60 | a trailing backslash is not removed |
| `Sanitizer.StripExample` | google_sheet_display.py:59 | `strip()` of `" data\n\n  ',\n"` removes only the outer whitespace |
| `Sanitizer.SanitizeExample` | google_sheet_display.py:59-60 | `" data\n\n  ',\n"` sanitizes to `"data"` |
| `FileName.LastIndexOf` | google_sheet_display.py:98 | the result is absent exactly when the character does not occur; otherwise it is an occurrence with none after it |
| `FileName.RSplitOnce` | google_sheet_display.py:98 | `rsplit(sep, 1)` gives one part (the input) iff `sep` does not occur, otherwise two parts that join back to the input with no `sep` in the second |
| `FileName.ExportName` | google_sheet_display.py:96-100 | the name always ends in `_edited.csv`, and what precedes the suffix is a prefix of the stored name or of `edited_sheet.csv` |
| `FileName.ExportNameDropsExtension` | google_sheet_display.py:96-100 | for a name whose last `.` is at `i`, the export name is the text before `i` followed by `_edited.csv` |
| `FileName.ExportNameWithoutDot` | google_sheet_display.py:96-100 | a name with no `.` is kept whole before `_edited.csv` |
| `FileName.ExportNameAfterConvert` | google_sheet_display.py:96-100 | the name stored by a conversion yields `image_extracted_edited.csv` |
| `FileName.ExportNameFallback` | google_sheet_display.py:97-100 | with no stored name the export name is `edited_sheet_edited.csv` |
| `FileName.ExportNameNestedExtension` | google_sheet_display.py:98 | `"a.b.c"` gives `"a.b_edited.csv"`: only the last extension goes |
| `FileName.ExportNameUpperCaseExtension` | google_sheet_display.py:98 | `"invoice.PNG"` gives `"invoice_edited.csv"` |
| `FileName.ExportNameBareName` | google_sheet_display.py:98 | `"report"` gives `"report_edited.csv"` |
| `Session.IsErrorStatus` | google_sheet_display.py:57 | `raise_for_status` raises exactly for statuses 400 to 599 |
| `Session.Converts` | google_sheet_display.py:53-61 | a conversion gets through iff a reply arrived, its status is not an error and `read_csv` accepts the sanitized text |
| `Session.Session.HasTable` | google_sheet_display.py:68 | the guard `"df" in st.session_state` |
| `Session.Session.Valid` | google_sheet_display.py:63-64 | a stored table always has `image_extracted.csv` stored beside it, since `df` is first written together with that name |
| `Session.Session.constructor` | google_sheet_display.py:68 | a fresh session holds neither `df` nor `original_filename`, and is valid |
| `Session.Session.Convert` | google_sheet_display.py:50-64 | succeeds exactly when a reply arrived, its status is not 4xx/5xx and the CSV reader accepts the sanitized text; names the failing step otherwise; on success stores the parsed table and `image_extracted.csv`, on failure leaves both keys as they were; keeps the store valid |
| `Session.Session.SaveChanges` | google_sheet_display.py:82-83 | only with a table stored; replaces `df` with the edited table and leaves `original_filename` unchanged; keeps the store valid |
| `Session.Session.Offer` | google_sheet_display.py:95-107 | the download is offered iff a table is stored, with that table, the derived export name and `text/csv` |
| `Session.Session.Rerun` | google_sheet_display.py:50-116 | for a run started by at most one of the two buttons on a valid store: the store stays valid; the run crashes exactly when a conversion was attempted and failed, leaving the store untouched; otherwise the editor shows iff a table is stored, shows the table after any save, and offers it under the derived name; without a conversion the origin name never changes, and without a conversion or save nothing changes; the download is always named `image_extracted_edited.csv`, so the `edited_sheet.csv` fallback is never reached |
| `Session.ConvertThenSave` | google_sheet_display.py:50-100 | after a successful conversion the editor shows the parsed table, and after a save the edited one, both under `image_extracted_edited.csv` |
| `Session.FailedConvertStoresNothing` | google_sheet_display.py:50-68 | a rejected request ends the run with the HTTP error and the next run still shows the upload prompt |

## Left out

- Page setup, CSS, titles, the uploader's file-type list and the other widgets (google_sheet_display.py:9-48, 71-79, 102-107, 116) are rendering. Only their effect on what a run shows is modelled, as `View`.
- The HTTP call (`requests.post` with its multipart payload and 60-second timeout) is a network operation. Its result enters as the `Reply` parameter.
- `pd.read_csv` and `DataFrame.to_csv` are parsing and serialising inside pandas. The reader is an opaque function parameter, the table an opaque type, and no CSV round trip is stated.
- The `csv_for_n8n` payload built after a save (lines 87-90) is never sent, so it is not modelled.
- `st.data_editor`'s editing is user interaction. The edited table enters `Rerun` as a parameter, and it is stored only when "Save changes" is clicked.
- Unicode whitespace is fixed to the set Python's current Unicode database reports for `str.isspace()`. Lone surrogates, which Python strings may hold, are not Dafny characters.
