# Artwork CSV processor — verified model of the row pipeline

The application takes a spreadsheet export of artwork records from a collections-management
system. It turns every row into a record for the page-layout program's data merge and offers
the referenced images as a `thumbs.zip` archive. All of its logic lives in `processCSV` and
`downloadImages` in `src/App.jsx`. This project models that logic in Dafny and proves what
each step promises.

Modules, one per stage of the pipeline:

- `Values` holds `Option` (JavaScript `undefined` or a value) and `Result`.
- `Text` holds JavaScript white space (the exact `\s` and `trim()` set), the run
  replacements `/[\r\n]+/g -> ' '` and `/\s+/g -> ' '`, and `trim()`. It also holds the
  parser's cell transform and the output cleaner's white-space step.
- `Slug` holds the artist and title slugs (NFD, combining marks dropped, one hyphen for
  each UTF-16 code unit that is not an ASCII letter or digit, so two for a character
  above U+FFFF). It also holds the `Artist_Title.jpg` file name, the
  `<basePath>/thumbs/<file>` path and a splitter that reads a file name back into its slugs.
- `ImageUrl` holds the leftmost match of `/\(https:\/\/.*?\)/`, as a backtracking
  regular-expression engine finds it, with the parentheses sliced off.
- `Seqs` holds `filter`, `map` and `[...new Set(xs)]` on sequences.
- `Records` holds the record built for one parsed row: sixteen display fields in
  literal order, four `_` bookkeeping fields, the project-folder fallback, the two
  "Alt Dimensions" fields and the validity test.
- `Output` holds the cleaner applied to each valid record before `Papa.unparse`. It is a
  loop that rewrites the string fields of `cleanRow` one key at a time, proved against
  the function `CleanedRow`.
- `Pipeline` holds `processCSV` from the parsed rows on: the base-path guard, the cell
  transform applied to every cell, the records, the validity filter, the empty-result
  error, the CSV rows, the image list and the statistics.
- `Download` holds the loop of `downloadImages` over given fetch outcomes. It counts
  successes and failures and adds each fetched image to the archive. It also states
  how the archive unpacks when two images share a file name.

The NFD and NFC normalisations are not computed. They are passed in as the two functions
of `Slug.Unicode`, so every property holds for every normalisation function.

## Model

| member | source | states |
|---|---|---|
| Text.IsSpace | src/App.jsx:338 | JavaScript white space, the set shared by `\s` and `trim()`: U+0009–U+000D, the space, U+00A0, U+1680, U+2000–U+200A, U+2028, U+2029, U+202F, U+205F, U+3000 and U+FEFF (a definition; the lemmas below state what the replacements do with it) |
| Text.DropRun | src/App.jsx:246 | the part of a string after its leading run of one character class: a suffix, everything dropped in the class, and the rest not starting with one |
| Text.Collapse | src/App.jsx:246 | a regular-expression run replacement never lengthens the text and is empty only for empty input; a leading run becomes a space and any other first character is kept |
| Text.CollapseLayout | src/App.jsx:246 | after the replacement every class character left is a plain space and no two of them are adjacent |
| Text.TrimEnd | src/App.jsx:248 | trailing white space removed: a prefix of the input, everything cut is white space, and it does not end in white space |
| Text.Trim | src/App.jsx:248 | `trim()` yields the input with white space cut off only at its two ends, and the result has none at either end |
| Text.CellTransform | src/App.jsx:242-251 | a transformed cell contains no CR or LF and has no leading or trailing white space |
| Text.CleanText | src/App.jsx:336-338 | the cleaner's white-space step leaves no CR or LF, only plain single spaces, and no white space at either end |
| Text.SpacesCollapsedLayout | src/App.jsx:338 | after `/\s+/g -> ' '` the text is single-spaced and has no CR or LF |
| Text.TrimKeepsLayout | src/App.jsx:338 | `trim()` keeps text free of CR/LF and single-spaced |
| Text.DropRunAll | src/App.jsx:246 | a run of class characters followed by a non-class character is dropped entirely |
| Text.CollapseNoneIn | src/App.jsx:246 | text with no character of the class is left unchanged by the replacement |
| Text.CollapseLeadingRun | src/App.jsx:246 | a leading maximal run becomes one space, followed by the replacement of the rest |
| Text.CollapseKeepsHead | src/App.jsx:246 | a first character outside the class is kept, followed by the replacement of the rest |
| Text.CollapseRun | src/App.jsx:246 | each maximal CR/LF (or white-space) run becomes exactly one space: a run-free prefix is kept, the run becomes `' '`, and the rest is processed in turn |
| Text.CollapseSingleSpaced | src/App.jsx:338 | single-spaced text passes `/\s+/g -> ' '` unchanged |
| Text.TrimTrimmed | src/App.jsx:248 | `trim()` of text without white space at either end is the identity |
| Text.CellTransformIdempotent | src/App.jsx:242-251 | the cell transform is idempotent, and `?.trim()` of a transformed cell changes nothing |
| Text.CleanTextIdempotent | src/App.jsx:336-338 | the cleaner's white-space step is idempotent |
| Slug.StripMarks | src/App.jsx:278 | removing U+0300–U+036F is the order-preserving filter that keeps every character outside that block; the result has no combining mark, is never longer and adds no character |
| Slug.StripMarksKeepsBase | src/App.jsx:278 | a character survives mark removal exactly when it is in the input and is not a combining mark, and the survivors keep their order |
| Slug.Utf16Length | src/App.jsx:279 | the length in UTF-16 code units, never less than the number of characters |
| Slug.HyphenUnits | src/App.jsx:279 | one character under `/[^a-zA-Z0-9]/g -> '-'`: an ASCII letter or digit stays itself, any other character becomes one `-` per UTF-16 code unit (two above U+FFFF) |
| Slug.Hyphenate | src/App.jsx:279 | the hyphen replacement is as long as the input in UTF-16 code units and holds only `[A-Za-z0-9-]` |
| Slug.HyphenateAppend | src/App.jsx:279 | the replacement works character by character: it distributes over concatenation |
| Slug.Utf16LengthAppend | src/App.jsx:279 | UTF-16 length adds up over concatenation |
| Slug.HyphenateAt | src/App.jsx:279 | input character `i` becomes exactly the slice of the result between the UTF-16 offsets of characters `i` and `i + 1`: itself if it is an ASCII letter or digit, otherwise one `-` per code unit |
| Slug.HyphenateBmp | src/App.jsx:279 | inside the Basic Multilingual Plane the replacement is one for one: same length, each ASCII letter and digit kept in place, `-` at every other position |
| Slug.SupplementaryCharTwoHyphens | src/App.jsx:279 | U+20BB7 followed by `a` becomes `--a`: a character above U+FFFF gives two hyphens |
| Slug.MakeSlug | src/App.jsx:276-283 | `cleanArtist` / `cleanTitle` hold only `[A-Za-z0-9-]` and are as long, in UTF-16 code units, as the mark-stripped decomposed input |
| Slug.FileName | src/App.jsx:309 | `_filename` is the artist slug, `_`, the title slug and `.jpg`, in that order and nothing else |
| Slug.FullPath | src/App.jsx:287 | the full path is the base path, `/thumbs/` and the file name, in that order and nothing else |
| Slug.FirstUnderscore | src/App.jsx:309 | the position of the first `_`, or none when there is no `_` |
| Slug.SplitFileName | src/App.jsx:309 | whatever it splits a file name into rebuilds that same file name |
| Slug.SlugShape | src/App.jsx:276-283 | when the mark-stripped decomposed input lies in the Basic Multilingual Plane, the slug is exactly as long as it and keeps each ASCII letter and digit in place, with `-` everywhere else |
| Slug.SlugFixedPoint | src/App.jsx:276-283 | slug text is left unchanged by both the mark removal and the hyphen replacement |
| Slug.StripMarksAppend | src/App.jsx:278 | mark removal distributes over concatenation |
| Slug.FileNameRoundTrip | src/App.jsx:309 | a file name built from two slugs splits back into exactly those two slugs |
| Slug.FileNameInjective | src/App.jsx:309 | two records get the same file name only when both their artist and their title slugs agree |
| ImageUrl.StopFrom | src/App.jsx:266 | the first `)` or line terminator at or after a position, or none |
| ImageUrl.TryAt | src/App.jsx:266 | the match attempted at one position: its closing `)` when the expression matches there, and none exactly when it does not |
| ImageUrl.FirstMatchFrom | src/App.jsx:266 | the leftmost match at or after a position: it matches, and no earlier position does; none when no position matches |
| ImageUrl.MatchedUrlShape | src/App.jsx:266-268 | a match with its parentheses sliced off begins with `https://` and holds no `)` and no line terminator |
| ImageUrl.ExtractImageUrl | src/App.jsx:263-273 | `_originalImageUrl` is `''` exactly when the cell is missing or nothing matches; otherwise it is the leftmost match without its parentheses, starting with `https://` and holding no `)` |
| Seqs.Filter | src/App.jsx:315-321 | `filter` keeps only elements satisfying the predicate and never lengthens the sequence |
| Seqs.Map | src/App.jsx:352-356 | `map` keeps the length and applies the function at each position |
| Seqs.Dedup | src/App.jsx:362 | `[...new Set(xs)]` has no duplicates, holds exactly the values of `xs` and is no longer than `xs` |
| Seqs.FilterAppend | src/App.jsx:315-321 | filtering a concatenation filters each part |
| Seqs.FilterMembers | src/App.jsx:315-321 | an element is kept exactly when it is in the input and satisfies the predicate |
| Seqs.FilterAll | src/App.jsx:315-321 | filtering with a predicate that every element satisfies is the identity |
| Seqs.FilterNone | src/App.jsx:315-321 | filtering with a predicate that no element satisfies gives the empty sequence |
| Seqs.FilterIsSubsequence | src/App.jsx:315-321 | filtering keeps the original order |
| Seqs.FilterMapLength | src/App.jsx:352-361 | filtering after a map keeps as many elements as the corresponding filter before it |
| Seqs.FirstIndexInPrefix | src/App.jsx:362 | a value's first occurrence in a prefix is its first occurrence in the whole |
| Seqs.DedupFirstOccurrenceOrder | src/App.jsx:362 | the values of `[...new Set(xs)]` stand in the order of their first occurrence in `xs` |
| Records.Truthy | src/App.jsx:316 | JavaScript truthiness of a cell or field: present and not the empty string (a definition; ValidIff states what it makes of a row) |
| Records.TrimOpt | src/App.jsx:290 | `?.trim()` is `undefined` exactly for a missing column, and otherwise a trimmed value |
| Records.ProjectFolder | src/App.jsx:284 | the project folder is the row's `Project ID #` when non-empty, else the project code when non-empty, else `UNKNOWN_PROJECT`, and never empty |
| Records.AltDimensions1 | src/App.jsx:297-298 | non-empty exactly when height and width are both non-empty, and then `H x W` |
| Records.AltDimensions2 | src/App.jsx:299-300 | non-empty exactly when the depth is non-empty, and then the depth |
| Records.BuildRecord | src/App.jsx:289-312 | every record has `@imageFilePath` equal to `_fullPath`, which is `basePath/thumbs/_filename`; a non-empty project folder; Artist and Title `undefined` exactly when their columns are missing; and an image URL that is empty or starts with `https://` |
| Records.IsValid | src/App.jsx:316 | `row.Artist && row.Title`: both fields present and non-empty (a definition; ValidIff states it in terms of the row) |
| Records.DisplayEntries | src/App.jsx:290-307 | the sixteen display fields carry the display keys in literal order |
| Records.BookkeepingEntries | src/App.jsx:308-311 | the four bookkeeping fields carry the `_` keys in literal order |
| Records.Entries | src/App.jsx:289-312 | the object literal as an ordered key/value list: the sixteen display fields followed by the four bookkeeping fields (a definition; DisplayEntries, BookkeepingEntries and Output.StrippedRecord state its keys and what the destructuring leaves of it) |
| Records.DisplayKeysNotBookkeeping | src/App.jsx:289-312 | no display key is a bookkeeping key |
| Records.TrimmedNonEmpty | src/App.jsx:316 | a trimmed value is non-empty exactly when the raw value has a non-white-space character |
| Records.ValidIff | src/App.jsx:315-321 | a row is kept exactly when both its Artist and Title cells exist and hold a non-white-space character; a row with only one of them is dropped |
| Records.RecordPaths | src/App.jsx:276-311 | both slugs hold only `[A-Za-z0-9-]`; `_filename` is `cleanArtist_cleanTitle.jpg` and splits back into the two slugs; `@imageFilePath` and `_fullPath` are both `basePath/thumbs/_filename`; `_projectFolder` is never empty |
| Output.StripBookkeeping | src/App.jsx:330 | the destructuring never lengthens the row and leaves no bookkeeping key (StripBookkeepingKeeps states that it keeps everything else, in order) |
| Output.CleanValue | src/App.jsx:334-342 | the per-key step of the cleaner: a string becomes NFC of the cleaner's white-space step, `undefined` is left alone (a definition; CleanString and OutputRowValues state its properties) |
| Output.CleanedRow | src/App.jsx:329-345 | the cleaned row has the keys of the stripped row, position by position, and none of them is a bookkeeping key |
| Output.CleanString | src/App.jsx:336-341 | the three rewrites of one string field give NFC of the cleaner's white-space step |
| Output.CleanRow | src/App.jsx:329-345 | the in-place loop over `cleanRow` yields exactly the specified cleaned row: the bookkeeping fields dropped, each string value cleaned, `undefined` left alone |
| Output.StripBookkeepingKeeps | src/App.jsx:330 | the destructuring removes exactly the bookkeeping fields and keeps every other field in order |
| Output.StrippedRecord | src/App.jsx:330 | of a record, exactly its sixteen display fields remain, in literal order, with their own values |
| Output.OutputRowKeys | src/App.jsx:329-345 | each CSV row has exactly the sixteen display keys in order and none of `_originalImageUrl`, `_filename`, `_projectFolder` or `_fullPath` |
| Output.OutputRowValues | src/App.jsx:333-343 | each key is kept and `undefined` stays `undefined`; each string becomes NFC of text with no CR or LF, only single spaces and no white space at either end, by an idempotent step |
| Pipeline.Ingest | src/App.jsx:242-251 | the parsed row keeps its columns, and every cell is the cell transform of the raw cell |
| Pipeline.MapRows | src/App.jsx:261-313 | one record per parsed row, in order, each built from the transformed row, each with a project folder |
| Pipeline.ProjectList | src/App.jsx:362 | `projects` has no duplicates, lists exactly the valid rows' project folders, and lists them in first-occurrence order |
| Pipeline.ToImageRef | src/App.jsx:352-355 | the `{url, filename, projectFolder}` object built for a valid row from its `_originalImageUrl`, `_filename` and `_projectFolder` (a definition; ImageListExactly states the list it builds) |
| Pipeline.NoneValid | src/App.jsx:323 | `validData.length === 0`: no record passes the validity test (a definition; Assemble and ProcessCsv state that it is exactly the no-valid-data error) |
| Pipeline.Assemble | src/App.jsx:315-363 | the no-valid-data error occurs exactly when no record is valid; otherwise `validRows` is between 1 and `totalRows`, the CSV has one row per valid record, `imagesFound` is at most `validRows` and equals the image list's length, and `projects` is distinct and non-empty |
| Pipeline.ProcessCsv | src/App.jsx:218-363 | the missing-base-path error occurs exactly when the base path is empty; the no-valid-data error exactly when it is not and no mapped row is valid; `totalRows` is the number of parsed rows |
| Pipeline.ValidRowsExactly | src/App.jsx:315-346 | the valid rows are exactly the records with non-empty Artist and Title, in their original order, and CSV row `i` is the cleaned valid record `i` |
| Pipeline.ImageListExactly | src/App.jsx:352-361 | the image list is the valid records that have a URL, in order, each with its URL, file name and project folder; its length is `imagesFound`; every URL is non-empty |
| Pipeline.ProjectsExactly | src/App.jsx:362 | `stats.projects` is the deduplicated project list of the valid rows: no duplicates, and a folder is listed exactly when some row passing the validity test has it |
| Pipeline.ValidFolders | src/App.jsx:362 | a folder is in the project list of the filtered rows exactly when some row of the input passes the validity test and has that folder |
| Pipeline.FilterOfMap | src/App.jsx:352-356 | mapping and then filtering equals filtering by the matching predicate and then mapping |
| Pipeline.CsvRowsClean | src/App.jsx:329-349 | every CSV row has the sixteen display keys in order, no bookkeeping key, and only cleaned string values |
| Pipeline.TrimmedFieldsAreCells | src/App.jsx:290-291 | Artist and Title of a record are the transformed cells themselves (`?.trim()` changes nothing after the transform), or `undefined` for a missing column |
| Download.DownloadImages | src/App.jsx:391-410 | the loop's archive has exactly the successful images in input order; `successCount` is the number of entries, `failCount` the number of failures, and together they make up every image |
| Download.Downloaded | src/App.jsx:398-410 | the archive entries of the loop, one at most per image, from the successful fetches only |
| Download.EntryName | src/App.jsx:396-404 | the archive path of an image, its file name inside the `thumbs` folder (a definition; EntriesAreSuccesses and SuccessesAreEntries state the entries that carry it) |
| Download.EntryFor | src/App.jsx:401-404 | one iteration adds exactly one entry when the fetch succeeded and none when it failed |
| Download.Failures | src/App.jsx:398-410 | `failCount` of the loop, never more than the number of attempts |
| Download.Unpack | src/App.jsx:404 | the archive as it unpacks, a later file replacing an earlier one of the same name: never more files than entries |
| Download.TallyCoversAll | src/App.jsx:398-410 | every attempt is counted once, as a success or a failure |
| Download.DownloadedSplit | src/App.jsx:398-410 | the entries from later attempts do not depend on earlier outcomes: a failure never stops the remaining iterations |
| Download.OneFailure | src/App.jsx:398-410 | with a single failed fetch at any position, the archive has `n - 1` entries and the tally is one failure |
| Download.AllFetched | src/App.jsx:398-410 | when every fetch succeeds, every image is in the archive and there is no failure |
| Download.EntriesAreSuccesses | src/App.jsx:396-405 | every archive entry is a successfully fetched image, under `thumbs/` with its file name and its bytes |
| Download.EntriesInInputOrder | src/App.jsx:398-405 | of two archive entries, the earlier one comes from the earlier image in the list: entries stand in input order |
| Download.SuccessesAreEntries | src/App.jsx:396-405 | every successfully fetched image has its entry in the archive |
| Download.UnpackLastWins | src/App.jsx:404 | the unpacked archive holds exactly the names added, each with the bytes of the last file added under that name |
| Download.UnpackNames | src/App.jsx:404 | a name is in the unpacked archive exactly when some entry carries it |
| Download.UnpackLast | src/App.jsx:404 | an entry that no later entry shares a name with is what its name unpacks to |
| Download.SameFileNameKeepsOne | src/App.jsx:404-405 | two images with the same file name both count as successes, but the archive unpacks to one file with the second one's bytes |

## Left out

- The React state, the JSX, the CSS and the alert component are presentation only. The status
  and error strings are rendered by the model's `Failure` and `Result` values instead.
- `FileReader` (src/App.jsx:230-234) is browser I/O, and so is the whole of `downloadCSV`.
- `fetch`, `response.ok`, `blob()` and the anchor-click downloads are browser I/O. A fetch is an
  element of the `outcomes` sequence given to `Download.DownloadImages`, one per image.
- `zip.generateAsync` is a foreign library call, so the archive is the sequence of
  `file(name, bytes)` calls made on it.
- `Papa.parse` and `Papa.unparse` are foreign library calls. The model starts from the parsed rows
  (trimmed header to cell text) and ends at the rows handed to the writer. Header trimming,
  quoting and the `__parsed_extra` field of over-long rows are not modelled.
- NFD and NFC tables are not computed; they are abstract functions.
- Strings are sequences of Unicode scalar values. A JavaScript string can also hold a lone
  surrogate code unit, which cannot be represented here; `/[^a-zA-Z0-9]/g` would turn one into
  a single hyphen.
- Output.OutputRowValues: the properties of a cleaned string (no CR/LF, single spaces, trimmed)
  are stated for the text before NFC, which is abstract here.
- Pipeline.CsvRowsClean: the same before-NFC statement applies to every CSV value.
- `Edition` is copied with `?.toString()`, which is the identity on strings; it is kept raw.
- The `try`/`catch` around the URL extraction (src/App.jsx:264-273) and the outer `catch`
  of `processCSV` (src/App.jsx:367-369) are not modelled. Nothing in the modelled steps
  throws: `.match`, `.replace`, `.trim()` and `.normalize()` are applied only to strings.
  `Papa.parse` reports malformed input in `parseResult.errors`, which the code never reads,
  and does not throw.
- The `FileReader` promise (src/App.jsx:230-234) has only an `onload` handler and never
  rejects. A failed read therefore leaves `processCSV` waiting forever: no error is shown
  and the `finally` block never runs. The model starts after a successful read.
- `async`/`await` sequencing, `setProcessing` and `console` logging carry no data.
- The final status messages are left out for the same reason.
- Some behaviours one might expect are absent from the code, and the model follows the code:
  - runs of hyphens in a slug are neither collapsed nor trimmed;
  - only the first image URL of a cell is used, and there are no `_2` or `_3` file names;
  - the column names are fixed literals, with no alias table;
  - the paths have no project-folder segment: `_projectFolder` only feeds the statistics
    and the image list.
