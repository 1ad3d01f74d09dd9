# ACC Build form splitter: filename and page-range preview

A Dafny model of the preview step of the ACC Build form splitter. The splitter cuts a multi-form PDF export into one PDF per form. Before anything is written, it shows a table with one row per form. Each row gives the source PDF, the untouched form title, the page range and the output file name. Duplicate file names are marked in red.

The model covers the logic behind that table (app.py lines 5-39):

- **ID strip** (`IdStrip`): with "remove ID" on, the anchored greedy regex `^#\s*\d+:?\s*` is deleted from the title.
- **Removal patterns** (`Removal`): each user pattern is applied in list order, ignoring case, each to the result of the previous one.
- **Cleaning** (`Slugify`): the name is stripped, each whitespace run becomes one `_`, and the Windows-reserved characters `\ / : * ? " < > |` are dropped.
- **File name** (`Naming`): `prefix + clean + suffix + ".pdf"`.
- **Pages label** (`PageLabel`): `f"{start}–{end}"`, with Python's `str` of an integer and an en dash.
- **Rows and duplicate mask** (`Preview`, `Duplicates`): one row per split, upload after upload, each upload in split order. Then `duplicated(keep=False)` runs over the Filename column.

The loops of the source are methods with loop invariants. These are the outer loop over uploads, the inner loop over splits, the pattern loop, and the counting done by the duplicate mask. Each method is proved equal to a specification function. The properties are lemmas about those functions.

Character classes (`Chars`): whitespace is the set Python's `str.isspace()` accepts. That set is also what `\s` and `str.strip()` use on text. Digits are `0`-`9`. Case-insensitive matching compares ASCII-lower-cased characters.

Points about app.py that the model makes explicit:

- The removal patterns are applied before cleaning, to the title after the ID strip.
- Cleaning keeps every character that is not whitespace or reserved. Characters such as `.`, `(` and `-` survive into the stem. Reserved characters are deleted one by one, and every other character, `_` included, stays in place (`Slugify.DropReservedAppend`, `Slugify.DropReservedChar`).
- Each whitespace run becomes exactly one `_` (`Slugify.CollapseRun`). Underscores already present are neither merged nor trimmed. When a reserved character sits between two spaces, two `_` stay side by side. `Slugify.SlugKeepsAdjacentUnderscores` proves this for the title `a / b`.
- The ID token may have whitespace between `#` and the digits. The colon is optional.
- The rows are specified as `RowFor` applied to the flat list of (upload name, split) pairs. The two nested loops are proved to build exactly that list.
- A batch that yields no split at all leaves the row list empty. The DataFrame then has no `Filename` column, and line 35 raises KeyError. `Preview.BuildPreview` returns None for exactly that case.

## Model

| member | source | states |
|---|---|---|
| IdStrip.StripId | app.py:16 | the result is a suffix of the title; a title not starting with `#` is returned unchanged |
| IdStrip.MaybeStripId | app.py:14-16 | with "remove ID" off the title is passed on unchanged, with it on the ID-stripped title is passed on |
| IdStrip.StripIdDeletesLongestToken | app.py:16 | what is deleted is a prefix in the language `#\s*\d+:?\s*`, and it is the longest such prefix: every token prefix of the title is at most that long, so any title starting with a token gets stripped |
| IdStrip.StripIdUnchangedWithoutToken | app.py:16 | a title with no prefix in `#\s*\d+:?\s*` is left unchanged |
| IdStrip.StripIdExample | app.py:16 | `#6849: Exhibit H-3` becomes `Exhibit H-3` |
| IdStrip.IdTokenLength | app.py:16 | the deleted length never exceeds the title, and is non-zero only for a title starting with `#` |
| Removal.RemoveAllUnchangedIff | app.py:18 | one pattern changes the name exactly when it occurs in it, ignoring case |
| Removal.RemoveAllIgnoresPatternCase | app.py:18 | two patterns equal up to case remove exactly the same text (`re.IGNORECASE`) |
| Removal.RemoveAll | app.py:18 | deleting matches never lengthens the name |
| Removal.RemoveAllLeftmost | app.py:18 | the leftmost match of the pattern (ignoring case) is deleted, the text before it is kept untouched, and deletion goes on over the text after that match, so matches never overlap; with `RemoveAllUnchangedIff` this fixes the result for every name |
| Removal.RemoveAllExample | app.py:18 | the pattern `acc` removes only `ACC` from `Form ACC`, leaving `Form ` |
| Removal.ApplyAllSplit | app.py:17-18 | applying a list of patterns is applying its first part and then its second part to the result, so patterns act in list order, each on the previous result |
| Removal.ApplyAllUnchanged | app.py:17-18 | patterns that occur nowhere in the name leave it unchanged |
| Removal.ApplyAll | app.py:17-18 | applying the patterns never lengthens the name |
| Removal.RemovePatterns | app.py:17-18 | the loop that rebinds the name once per pattern ends with the ordered application of all patterns |
| Slugify.Strip | app.py:19 | the result has no whitespace at either end, and it is a slice of the input with only whitespace cut off the two ends |
| Slugify.CollapseSpaces | app.py:19 | after whitespace runs become `_`, no whitespace is left |
| Slugify.CollapseRun | app.py:19 | a maximal whitespace run of any length, followed by a non-space or by the end, becomes exactly one `_` |
| Slugify.CollapseAppend | app.py:19 | cutting the name just after a non-space character cuts its collapsed form at the same point, so runs are replaced one by one and the rest is copied |
| Slugify.CollapseRunExample | app.py:19 | `a  b` (two spaces) becomes `a_b`, not `a__b` |
| Slugify.DropReserved | app.py:20 | the result has no reserved character, adds no whitespace, and a name without reserved characters is returned unchanged |
| Slugify.DropReservedAppend | app.py:20 | deleting reserved characters distributes over concatenation, so every kept character, `_` included, stays in place and in order |
| Slugify.DropReservedChar | app.py:20 | one character is deleted exactly when it is one of `\ / : * ? " < > \|`; any other character, `_` included, is kept |
| Slugify.Slug | app.py:19-20 | the cleaned stem contains no whitespace and none of `\ / : * ? " < > \|` |
| Slugify.SlugIdempotent | app.py:19-20 | cleaning a cleaned stem returns it unchanged |
| Slugify.SlugFixpoints | app.py:19-20 | a string is its own cleaned form exactly when it has no whitespace and no reserved character |
| Slugify.SlugKeepsText | app.py:19-20 | every character that is not whitespace, reserved or `_` survives cleaning, in the original order, and no such character is added |
| Slugify.SlugKeepsAdjacentUnderscores | app.py:19-20 | `a / b` cleans to `a__b`: underscore runs are not collapsed |
| Naming.Stem | app.py:14-20 | the stem derived from any title under any options has no whitespace and no reserved character |
| Naming.FileNameShape | app.py:21 | the file name starts with the prefix, ends with the suffix and `.pdf`, and what lies between is the stem, which is already clean |
| Naming.FileNamesCollideIff | app.py:21 | under one set of options, two titles get the same file name exactly when they get the same stem |
| Naming.DeriveFileName | app.py:14-21 | the step-by-step rebinding of the name (ID strip when enabled, the pattern loop, strip, whitespace runs, reserved characters, then the f-string) yields exactly `FileName`, whose shape `FileNameShape` gives |
| PageLabel.IntToString | app.py:26 | a number's text is non-empty and holds no en dash |
| PageLabel.PagesRoundTrip | app.py:26 | the start and the end can be read back from the "Pages" label, so the label shows exactly that split's range |
| Preview.FileNames | app.py:35 | the Filename column has one entry per row, entry i being row i's file name |
| Preview.AllRowsLength | app.py:13-23 | there are exactly as many rows as splits across all uploads |
| Preview.AllRowsAt | app.py:13-28 | split j of upload i gives the row at position (number of splits of earlier uploads) + j; that row names its source PDF, keeps the raw title as Form Name, shows that split's start and end, and carries the title's derived file name |
| Preview.RowForFields | app.py:23-28 | a row names its source PDF, keeps the raw title as Form Name, has a Pages label that reads back as the split's start and end, and carries the title's derived file name |
| Preview.AllSplitsAt | app.py:6-13 | the flat list of (upload name, split) pairs holds split j of upload i at position (number of splits of earlier uploads) + j |
| Preview.BuildUploadRows | app.py:13-28 | the loop over one upload's splits appends exactly that upload's rows, in split order |
| Preview.BuildRows | app.py:5-28 | the loop over the uploads produces all rows, upload after upload |
| Preview.BuildPreview | app.py:32-39 | fails (KeyError on the missing `Filename` column) exactly when no upload has a split; otherwise the table has one row per split and one mask entry per row, and row i is marked exactly when some other row has the identical file name |
| Duplicates.DuplicatedIffRepeated | app.py:35 | a row is duplicated exactly when its name occurs more than once in the whole column; a name occurring once is never marked |
| Duplicates.FlagDuplicates | app.py:35 | the mask has one entry per name, and entry i is true exactly when some other entry j ≠ i has the same name (`keep=False`) |

## Left out

- Streamlit output (`st.subheader`, `st.progress`, `st.dataframe`) and the pandas styling that colours the marked names red and wraps text. These are presentation only.
- The progress fraction `(idx + 1) / len(pdf_bytes_list)`. It is floating point and feeds only the progress bar.
- `PdfReader` and `len(reader.pages)`. Loading needs the PDF library. The page count only feeds `split_ranges`.
- `detect_toc_pages`, `parse_toc` and `split_ranges`. They are not part of this model. The split plan they produce is taken as input: an upload is its name plus its list of `(raw, start, end)` splits.
- Removal.RemoveAll: a user pattern is modelled as a literal text, which is a regex with every character escaped. Regex operators such as `.`, `*` and character classes are not modelled.
- Removal.RemoveAll: upper and lower case are matched for ASCII letters only. Python's Unicode case folding is not modelled.
- Chars.IsDigit: `\d` matches only the ASCII digits here. Python also matches other Unicode decimal digits.
- The DataFrame is modelled as a sequence of rows. The duplicate mask is modelled by counting names in a map, not by pandas' hashing internals.
