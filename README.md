# Moodle backup round-trip patch engine

This project models the engine behind the Moodle backup tool, and proves properties of that model. The engine reads a
course backup (`.mbz`, a gzipped tar archive of XML files) and lists its
sections and activities with their dates, as rows ordered by position in the
course. It can also take an edited copy of that list (a spreadsheet sheet
named `moodle-data`) and write a patched backup. In the patched backup only
the XML files whose text actually changed are re-serialised; every other
entry is copied through unchanged.

Two variants of the engine are modelled:

- `src/magic.js`, the library used by the command-line tools. Its
  module-level state (`patchedFiles`, the per-group parse cache and the
  `contents`/`patchContents` bundle maps) is the class `Magic.Engine`.
  The class's methods are proved equal to the specification functions in
  `Magic` and `Registry`. `processBackup` is `Magic.Engine.ProcessBackup`
  and `processPatchFile` is `Magic.Engine.ProcessPatchFile`.
- `main.js`, the earlier stand-alone script. It is the class
  `Script.Script`, specified by `Script.MainRun`.

The modules:

- `Wrappers` holds `Option`.
- `JsText` covers the JavaScript string and number helpers the engine relies on:
  - `split`, `indexOf`, `trim`;
  - `parseInt(x, 10)`, and `Number(x)` on signed decimal integers;
  - `String(n)`, `padStart` and `Math.round(ms / 1000)`;
  - the slug expression and the `/\.[^.]*$/` replacement.
- `Xml` represents a parsed document as the sequence of its elements, each
  with an optional first text child. `read` and the in-place text rewrite
  work on the first element with a tag.
- `JsonModel` holds JSON values. `Availability` decodes availability
  expressions and implements both variants' edits to them.
- `Codecs` passes the XML, JSON and UTF-8 codecs and `new Date(string)` in
  as parameters. They are foreign libraries, and the lemmas that need a
  round trip through them say so in their `requires`.
- `Sheet` covers patch-sheet rows and the two validations: lenient in
  `src/magic.js`, strict in `main.js`.
- `Course` covers grouping archive entries into sections and activities,
  ordinals, placement of an activity in its section, type dispatch, and the
  rows.
- `Registry` models one edit step (`patch`, `patchAvailability`,
  `extractAndPatchContent`) as a function from engine state to engine
  state. A step can fail; failure models a thrown exception.
- `Output` covers the read-mode sort and export, assembling the patched
  archive, and the output file names.
- `Runs` and `Script` hold the whole-run theorems:
  - Read mode edits nothing.
  - Every edit lands in a file of the archive.
  - The patched archive carries the re-serialised document of every
    edited file, at the position of that file's entry.

Behaviour of the source that is modelled as written and exhibited by a
lemma (none of it is corrected):

- **Intro rewrite without a bundle entry.** In `src/magic.js`, patch mode
  rewrites the `intro` of a label or assignment whenever the bundle holds a
  different text for its path. This includes the case where the bundle has
  no entry for the path at all: the intro then becomes the text
  `undefined`. See `Registry.ExtractWithoutBundle`.
- **Lost intro edit.** `extractAndPatchContent` records the freshly parsed
  document as dirty, but later field patches of the same file go through the
  parse cache. If another field of the file changes, the dirty entry is
  replaced and the intro edit is lost. See `Registry.IntroEditLost`.
- **Activities missing from their section's sequence.** Such an activity
  gets position -1, so its ordinal equals its section's. See
  `Course.ActivityInSlot`.
- **main.js availability rewrite.**
  - When both bounds exist and both are supplied, `main.js` writes
    `JSON.stringify` of the raw text. The result is a JSON string literal,
    so the window disappears. See `Availability.MainKeepBranchLosesWindow`.
  - Otherwise it writes a fresh expression holding only the supplied
    bounds, so an activity absent from the sheet loses its window. See
    `Registry.MainDropsUnlistedWindow`.
- **`contents` is never reset between runs.** A bundle exported after
  several runs carries every intro seen so far. See `Runs.RunGrows` and
  `Runs.RunReadMode`.
- **The variants dispatch activity types differently.** `src/magic.js`
  tests file contents for truthiness and has a label branch. `main.js`
  tests only for presence and cuts the fallback name to its first line. See
  `Course.DispatchVariants` and `Script.EntryVariants`.
- **Bundle folders are named after the position, not the section.** The
  activity loop passes the activity's position in its section's sequence as
  `number` and the module's `sectionnumber` as `index`
  (src/magic.js:320-321, 345, 349). So an intro's folder
  `sections/<number + 1>/` is numbered by position, and its file prefix
  `<index + 1>_` by section. The model passes the same arguments; see
  `Output.BundlePath` and `Magic.ActivityVisit`.
- **Sections are never patched in `main.js`.** All of its edits fall under
  `activities/`. See `Script.MainEditsActivitiesOnly`.
- **Different sheet validation.** `src/magic.js` accepts strings that parse
  as dates and converts them. `main.js` rejects any non-Date value, and its
  error path refers to an undefined `i`, so the script ends without output
  either way. See `Sheet.StrictWithinLenient`.

## Model

| member | source | states |
|---|---|---|
| JsText.TrimFacts | main.js:240 | `trim` returns a slice `s[i..j]` of its text where everything cut off on either side is white space and neither end of the result is white space; it adds no character and leaves a trimmed string alone |
| JsText.Split | src/magic.js:263 | `split` yields at least one piece and no piece contains the separator |
| JsText.JoinSplit | src/magic.js:295 | joining the pieces of a split with the separator gives the original text back |
| JsText.SplitJoin | src/magic.js:295 | splitting a join of separator-free pieces gives the pieces back |
| JsText.IndexOf | src/magic.js:320 | `indexOf` is -1 exactly when the value is absent, and otherwise the first index holding it |
| JsText.ParseIntOfString | src/magic.js:294 | `parseInt(String(n), 10)` gives n back for every integer |
| JsText.PadStart | src/magic.js:169 | `padStart` pads to the requested width with the pad character in front and keeps the text as a suffix |
| JsText.RoundToSeconds | src/magic.js:46 | `Math.round(ms / 1000)` is the whole number of seconds within half a second of ms |
| JsText.Sanitize | src/magic.js:169 | the result has one character per UTF-16 code unit of the name (a character outside the Basic Multilingual Plane gives two dashes, since the expression has no `u` flag), all from `[a-z0-9_-]` |
| JsText.Slug | src/magic.js:169 | a slug has at most 20 characters, all from `[a-z0-9_-]` |
| JsText.SlugCountsCodeUnits | src/magic.js:169 | `.slice(0, 20)` counts UTF-16 code units: a name made of an emoji and 19 or more letters keeps 18 letters, after a single dash |
| JsText.SlugFixpoint | src/magic.js:169 | a name that is already a slug (short, clean, no double dash, no trailing dash) is its own slug |
| JsText.LastDot | src/magic.js:434 | finds the dot that starts the last extension, and finds none exactly when there is no dot |
| JsonModel.Member | src/magic.js:94-96 | a member lookup succeeds exactly when the object has that key |
| JsonModel.MemberFirst | src/magic.js:94-96 | the lookup returns the value of the first member with the key |
| JsonModel.Put | src/magic.js:130 | setting a member makes it read back and leaves every other member as it was |
| Xml.FirstIndex | src/magic.js:37 | `getElementsByTagName(tag)[0]` is the first element with the tag, and is absent exactly when no element has it |
| Xml.Read | src/magic.js:71-78 | `read` is the first text child of the first element with the tag, or `''` when either is missing or the text is empty |
| Xml.SetText | src/magic.js:65 | `replaceData` keeps the element count, the tag then reads back the new text, no other tag's text changes, and no element other than the first with the tag changes |
| Xml.ReadAfterSet | src/magic.js:65 | after the rewrite, the tag reads back the new text |
| Xml.SetTextOnlyThere | src/magic.js:65 | the rewrite changes no other element and no other tag's text |
| Xml.SetCurrentText | src/magic.js:64-65 | writing the current text back leaves the document as it was |
| Availability.Find | src/magic.js:95-96 | `c.find` returns the first date constraint with that `d`, or reports none, or throws on a `null` entry met before it |
| Availability.Decode | src/magic.js:88-111 | only a parsed `&` expression yields a window, and each bound is a non-zero multiple of 1000 ms |
| Availability.DecodeEdit | src/magic.js:113-157 | decoding the edited expression shows each supplied bound rounded to seconds, and the old bound where none was supplied |
| Availability.SetBoundEffect | src/magic.js:127-153 | setting a bound overwrites `t` of the first matching constraint, or appends one with a `true` flag; other constraints keep their values and order |
| Availability.EditPreserves | src/magic.js:113-157 | an edit keeps everything outside `c`/`showc`, keeps every non-date constraint in place, and appends a `true` flag for each appended constraint |
| Availability.EditInvisibleOutsideConjunction | src/magic.js:117-153 | an expression whose op is not `&` is still edited, but the edit never shows up in the decoded window |
| Availability.NoNullNoThrow | src/magic.js:127 | `find` over constraints without `null` never throws |
| Availability.MainKeepBranchLosesWindow | main.js:161-172 | when both bounds exist and are supplied, main.js writes the raw text as a JSON string, which decodes to no window |
| Availability.MainFreshRoundTrip | main.js:173-200 | otherwise main.js writes an expression whose decoded window holds exactly the supplied bounds |
| Sheet.CheckRow | src/magic.js:224-236 | one row is refused exactly when one of its date columns holds a truthy non-Date cell that does not parse as a date; otherwise every parseable cell in those columns is replaced by its date |
| Sheet.ValidateLenient | src/magic.js:223-241 | the sheet is rejected exactly when some row holds a truthy non-Date cell in a date column that does not parse as a date; otherwise the result is keyed by id with parseable cells converted |
| Sheet.AcceptedRowsHoldDates | src/magic.js:184-191 | in an accepted row, every date column holds a Date or a falsy cell, and the other columns are untouched |
| Sheet.KeyedDomain | src/magic.js:238 | the patch set's keys are exactly the rows' ids |
| Sheet.KeyedLast | src/magic.js:238 | the row kept for an id is the last row with that id |
| Sheet.ValidateStrict | main.js:119-126 | main.js rejects the sheet exactly when some row holds a value that is neither a Date nor undefined in a date column; otherwise it keys the rows by id unchanged |
| Sheet.StrictWithinLenient | main.js:120 | every sheet main.js accepts is accepted unchanged by src/magic.js |
| Course.GroupItems | src/magic.js:260-272 | the grouping loop computes the grouping function `Grouped` |
| Course.GroupedWellFormed | src/magic.js:261-270 | every group is keyed by its id, and its path is `prefix/id/` under its own prefix |
| Course.GroupedContains | src/magic.js:262-272 | every `activities/` or `sections/` `.xml` entry is recorded as a file of its group |
| Course.EntryKeyIsName | src/magic.js:263-266 | for a three-piece name, the group path plus the file is the entry's own name |
| Course.SectionOrdinalOf | src/magic.js:294 | a section numbered n gets ordinal n × 1000 |
| Course.ActivityInSlot | src/magic.js:318-326 | for positions up to 998, a listed activity's ordinal lies strictly inside its section's slot; an unlisted one (position -1) shares its section's ordinal |
| Course.OrdinalOrder | src/magic.js:318-326 | for positions up to 998 (or -1 when unlisted), ordinals order activities by section number, then by position in the sequence |
| Course.PlaceFacts | src/magic.js:318-325 | the section is `section_<sectionid>`, the position is where the module id sits in its sequence or -1, and the ordinal is section ordinal + position + 1 |
| Course.DispatchVariants | src/magic.js:342-380 | without a label and with no empty files, both variants pick the same kind; a label-only activity is a label in src/magic.js and falls to `<modulename>.xml` in main.js |
| Course.FirstLineFacts | main.js:240 | main.js's fallback name is the text before the first line break (the whole name when there is none) with the white space at its two ends cut off; it has no line break and no outer white space, and a clean one-line name is kept |
| Registry.PatchIgnores | src/magic.js:28-30 | a falsy value, or one that is neither a string nor a Date, changes neither the dirty map nor the cached documents |
| Registry.WriteFieldEffect | src/magic.js:32-68 | `patch` writes the encoded value into that tag only, caches the document, and marks the file dirty exactly when the text changed |
| Registry.PatchDirtyIffChanged | src/magic.js:64-68 | the dirty map changes only when the new text differs from the current one, and then the file's entry reads back the new value |
| Registry.PatchIdempotent | src/magic.js:64-68 | repeating a patch with the same value changes nothing |
| Registry.DateRoundTrip | src/magic.js:45-47 | a Date is written as round(ms/1000); read back as `new Date(parseInt(x) * 1000)` it is within half a second, and exact on whole seconds |
| Registry.PatchVariants | main.js:14-41 | main.js's `patch` equals src/magic.js's for truthy values; an undefined value records no edit, still parses the file into the cache, and throws only when the file or tag is missing |
| Registry.PatchAvailabilityRoundTrip | src/magic.js:113-157 | once patched, the document's availability decodes to the supplied bounds, and keeps the current ones where nothing was supplied |
| Registry.MainDropsUnlistedWindow | main.js:161-200 | an activity absent from the sheet whose window has a bound is rewritten to an expression with no window |
| Registry.ExtractContentEffect | src/magic.js:162-178 | the intro is recorded under the bundle path; in patch mode, the file is rewritten and marked dirty when the bundle holds a different intro |
| Registry.ExtractWithoutBundle | src/magic.js:172-177 | with no bundle entry for the path, patch mode writes the intro `undefined`, or fails when the intro has no text |
| Registry.WriteFieldFrame | src/magic.js:32-68 | `patch` changes no entry of the record of edits except its own file's, adds no exported content, and caches no document other than its own file's |
| Registry.IntroAtLost | src/magic.js:172-177 | once the intro edit is recorded, a changing write to another element of the same file, made from a fresh parse of the file, puts back the file's original intro text |
| Registry.IntroEditLost | src/magic.js:172-177 | a later change of another field of the same file replaces the dirty entry, and the intro edit is lost |
| Registry.PatchAllConfined | src/magic.js:354-359 | a sequence of field patches of one file dirties at most that file and keeps every other dirty entry |
| Output.SortByOrdinalFacts | src/magic.js:386-388 | the read-mode sort is a permutation, ascending by ordinal when every row has one, and stable: the rows with any one ordinal (a section and its unlisted activities share one) keep their build order |
| Output.InsertionSortFacts | src/magic.js:386 | the sort by key is sorted and a permutation |
| Output.ExportKeepsRows | src/magic.js:386-388 | the exported rows are exactly the built rows, reordered |
| Output.Assemble | src/magic.js:439-448 | the output loop computes `Assembled` |
| Output.AssembledFacts | src/magic.js:439-448 | entries keep their names and order; a non-folder dirty entry carries the serialised document; every other entry is unchanged |
| Output.AssembledClean | src/magic.js:439-448 | with nothing dirty, the archive is written back unchanged |
| Output.AssemblyVariants | main.js:286-303 | main.js's assembly agrees with src/magic.js's on files, and keeps folders as they were |
| Output.PatchedArchiveNameFresh | src/magic.js:434 | the patched name ends in `.mbz` and never equals the input name |
| Output.PatchedArchiveNameShape | main.js:277 | the last extension becomes `.patched`, followed by `.mbz`; a name without a dot just gets `.mbz` |
| Output.BundleOfExport | src/magic.js:406-418 | the sheet is `<name without extension>.xlsx`, and the bundle is the same name with `.zip` |
| Output.BundlePathShape | src/magic.js:164-169 | a bundle path lies under `sections/`, and ends in `.html` exactly for intro format 1, otherwise in `.txt` |
| Magic.UnzippedFacts | src/magic.js:199-207 | every zip entry outside the root sheet is decoded into the bundle, and the last entry with a name wins |
| Magic.UnzippedKeeps | src/magic.js:199-207 | unzipping keeps earlier bundle keys, and every new key comes from a zip entry |
| Magic.Engine.constructor | src/magic.js:21-25 | the engine starts with no dirty files, no cache and empty bundle maps |
| Magic.Engine.Patch | src/magic.js:27-69 | updates the state as `Registry.Patch` says, failing where `patch` throws |
| Magic.Engine.WriteField | src/magic.js:32-68 | the body of `patch` after the falsy guard updates the cache and the record of edits as `Registry.WriteField` says |
| Magic.Engine.PatchAvailability | src/magic.js:113-157 | updates the state as `Registry.PatchAvailability` says |
| Magic.Engine.ExtractAndPatchContent | src/magic.js:162-178 | updates the state as `Registry.ExtractContent` says |
| Magic.Engine.IndexSection | src/magic.js:292-313 | one section iteration updates the state as `SectionVisit` says |
| Magic.Engine.PatchKindFields | src/magic.js:354-371 | the per-kind field patches update the state as `Registry.PatchAll` says |
| Magic.Engine.IndexActivity | src/magic.js:315-382 | one activity iteration updates the state as `ActivityVisit` says |
| Magic.Engine.ProcessPatchFile | src/magic.js:193-245 | without the root sheet the result is none; otherwise it is the lenient validation of the rows; the bundle gains the zip's other entries |
| Magic.Engine.IndexSections | src/magic.js:291-313 | the sections loop computes `SectionsVisit` and, on success, the section rows and infos |
| Magic.Engine.IndexActivities | src/magic.js:315-382 | the activities loop computes `ActivitiesVisit` and, on success, the activity rows |
| Magic.Engine.ProcessBackup | src/magic.js:247-463 | a whole run yields the state and outcome `Magic.Run` describes |
| Magic.ActivityVisitHasRow | src/magic.js:315-381 | an activity iteration succeeds only when the activity has a row |
| Runs.ReadSectionsVisit | src/magic.js:291-313 | in read mode the sections loop changes no state and succeeds exactly when every section yields a row |
| Runs.ReadActivitiesVisit | src/magic.js:315-382 | in read mode the activities loop edits nothing, only adds bundle paths, and succeeds exactly when every activity yields a row |
| Runs.RunReadMode | src/magic.js:384-430 | a read-mode run edits nothing; it exports exactly when every row builds, the rows are the sorted rows without ordinals, and the bundle is present exactly with `--files` |
| Runs.RunGrows | src/magic.js:159-160 | no run removes a `contents` path or changes `patchContents` |
| Runs.GroupedListed | src/magic.js:260-272 | every file of every group comes from an archive entry with that name |
| Runs.EditsDelivered | src/magic.js:439-448 | for three-piece entry names, every edited file of a group appears in the assembled archive as its re-serialised document |
| Runs.RunDelivers | src/magic.js:247-459 | in a patched run, every dirty file is written out, serialised, at the index of its own entry |
| Script.Script.constructor | main.js:9-12 | the script starts with no dirty files and no cache |
| Script.Script.Patch | main.js:14-41 | updates the state as `Registry.WriteField` says, with no falsy guard |
| Script.Script.PatchAvailability | main.js:161-200 | updates the state as `Registry.MainPatchAvailability` says |
| Script.Script.PatchKindFields | main.js:220-244 | the per-kind field patches, including the fallback kind's `name` write, update the state as `Registry.PatchAll` without the guard says |
| Script.Script.IndexActivity | main.js:129-246 | one activity iteration updates the state as `MainActivityVisit` says |
| Script.Script.IndexActivities | main.js:129-247 | the activities loop computes `MainActivitiesVisit` and, on success, the rows |
| Script.Script.IndexSections | main.js:78-109 | the sections loop yields the section rows and infos exactly as `SectionsIndexed` says |
| Script.Script.ProcessArchive | main.js:53-313 | a whole script run yields the state and outcome `MainRun` describes |
| Script.Script.Finish | main.js:129-313 | the activities loop and the output stage yield what `MainFinish` describes |
| Script.AssembleMain | main.js:286-303 | the output loop computes `AssembledMain` |
| Script.MainReadMode | main.js:249-273 | in read mode main.js edits nothing; it exports exactly when every row builds, as the sorted rows without ordinals and with no bundle |
| Script.MainEditsActivitiesOnly | main.js:129-247 | every file main.js edits lies under `activities/` |
| Script.MainDelivers | main.js:274-303 | in a patched run, every dirty file is written out, serialised, at the index of its own entry |
| Script.EntryVariants | main.js:213-245 | when both variants pick the same kind they build the same row, except that main.js cuts the fallback name to its first line |

## Left out

- The gzip envelope and the tar container (pako, tarjs, node-tar) are
  left out. Headers, mtime, mode and checksums are not modelled. An archive
  is a sequence of named entries whose data is decoded by a codec parameter.
- The XML parser and serialiser and `JSON.parse`/`JSON.stringify` are
  parameters of the model (`Codecs.Library`). No property of them is
  assumed; the lemmas that need a round trip through them say so in their
  `requires`.
- The XLSX reading and writing, column widths, and the zip packing of the
  `--files` bundle are left out. The sheet is a sequence of rows, and the
  bundle is a map from path to text.
- The title sync into `moodle_backup.xml` (src/magic.js:53-62, 273-288) is
  left out. It relies on DOM node aliasing and is best effort inside
  `try`/`catch`. The model keeps no `backup` state.
- Logging, the command line (`bin/cli.js`, `bin/mmm.js`), exit codes and
  the `async` ordering are left out. `process.exit(1)` and an exception
  that ends a run are both modelled as a failed outcome.
- Dates are whole milliseconds. JavaScript's floating point is not
  modelled, and NaN is modelled as an absent value. `new Date(string)` is a
  partial function parameter. An Invalid Date coming out of a sheet cell is
  not modelled.
- `Availability.Seen`: a constraint's `t` that is truthy but not a whole
  JSON number (a numeric string such as `"1700000000"`, `true`, a fraction)
  is treated as absent. JavaScript's `t * 1000` would coerce it and still
  show a date, so on such input the row, the `Differs` test and the patch
  decision of the model can differ from the source's.
- `Output.SortByOrdinalFacts`: the read-mode sort is a stable insertion
  sort on values, and its stability is proved. When some ordinal is NaN, JavaScript's order is
  implementation-defined; the model then keeps the build order, and no
  sortedness is claimed.
- Edits of JSON objects and XML documents are modelled on values, not in
  place. In the source, `patch` records the cached document object itself
  as the dirty entry, so the two are aliased (src/magic.js:36, 67;
  main.js:19, 39). The model keeps two values instead. They agree because
  every mutation of a cached document goes through `patch`, which records
  the document again. Only `extractAndPatchContent` records a separate
  parse, and `Registry.IntroEditLost` exhibits what follows from that.
- `JsText.Sanitize`: lowercasing is modelled for ASCII letters only. Other
  letters that `toLowerCase` maps into `[a-z]` are replaced by `-`. Letters
  whose lower case is longer (`'İ'` becomes two code units) keep one
  character in the model, so the slug can differ from the source's.
- `JsText.ToNumber`: `Number(x)` is modelled on an optional sign and
  decimal digits, surrounded by white space. Hexadecimal, binary and octal
  prefixes, exponents, fractions and `Infinity` give NaN in the model,
  where JavaScript gives a number. The engine applies `Number` to
  `sectionnumber`, which the backup writes as a decimal integer.
- `JsonModel.Member`: an object whose member list carries a key twice is
  read at its first member. `JSON.parse` keeps the last value given for a
  duplicated key (at the position of the first). The JSON codec is a
  parameter, and nothing in the model makes it drop duplicates.
- `reader.getTextFile` with two entries of the same name is modelled as
  the later entry winning.
- `Runs.EditsDelivered`, `Runs.RunDelivers` and `Script.MainDelivers` require that every
  qualifying entry name splits into exactly three pieces. A deeper name
  such as `activities/x/y/z.xml` is grouped under its second piece, and its
  edit key no longer equals its entry name.
- The patched archive and the exported sheet are modelled as results, not
  written to disk.
