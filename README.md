# File Mover: a verified model of its file-handling core

File Mover is a desktop tool. It takes photo archives and loose files and puts them
into an event folder. The folder is named after a calendar event, and a keyword filter
picks which events count. This project models, in Dafny, the logic of
`FileMoverApp.py` that does not depend on the GUI, the Google APIs or the disk:

- `Keywords` (keywords.dfy): the keyword filter `is_hit_keywords_event` and the
  keyword editor's text round trip.
- `EventFormat` (event_format.dfy): `format_with_date`, which builds an event-folder
  name from a template with `{date}`, `{date:<strftime spec>}` and `{event}`
  placeholders.
- `FormatValidation` (format_validation.dfy): `validate_format` and the
  `string.Formatter().parse` grammar it relies on. It also holds the format editor's
  `save_format`.
- `ImageExtract` (image_extract.dfy): `is_image` and the collision-safe flat copy of
  `extract_and_copy_images`. The target directory is the set of names it holds.
- `SmartExtract` (smart_extract.dfy) and `Archive` (archive.dfy): `extract_zip_smart`.
  It names the output folder after the archive and collapses wrapper folders. The
  extracted archive is an ordered directory tree, walked the way `os.walk` walks it.
- `FileMover` (file_mover.dfy): the window's list of selected paths (`select_files`,
  `on_drop`) and the batch policy of `execute`.
- `Text`, `PathNames` and `Wrappers`: the Python string operations the code uses
  (`lower`, `strip`, `split`, `join`, `replace`, `in`), `os.path.splitext` and
  `os.path.basename` in their Windows (`ntpath`) form, and an `Option` type.

Where the design description and the code disagree, the model follows the code:

- The illegal-character class `[\/:*?"<>|]` (FileMoverApp.py:165) holds `/` and no
  backslash: in the pattern, the backslash only escapes the `/`. A backslash is
  therefore accepted in a template.
- The required-tag test (FileMoverApp.py:177) looks for the literal text `{event}` or
  `{date}`. A `{date:spec}` token does not satisfy it.

Python's `string.Formatter().parse` is modelled on CPython's `MarkupIterator_next` and
`parse_field`. Doubled braces are literal text. A lone `}` and a `{` at the very end are
errors. A field name stops at `}`, `:` or `!`, skips over `[...]`, and is an error when
it meets a `{` or runs off the end. After `!` come one conversion character and then `}`
or `:`. A format spec ends at the `}` that balances its braces.

## Model

Functions without an `ensures` are definitions; their rows name the lemmas that state
what they mean.

| member | source | states |
|---|---|---|
| Keywords.IsHitKeywordsEvent | FileMoverApp.py:39-46 | The loop with its early return answers true exactly when some keyword, lower-cased, occurs in the lower-cased `title + " " + description`, with a missing title or description read as "". |
| Keywords.KeywordOrderIrrelevant | FileMoverApp.py:43-46 | Two keyword lists with the same members give the same answer for every text, whatever their order or repetitions. |
| Keywords.NoKeywordsNoHit | FileMoverApp.py:43-46 | An empty keyword list never hits. |
| Keywords.EmptyKeywordHitsEverything | FileMoverApp.py:43-45 | An empty keyword in the list makes every event a hit. |
| Keywords.KeywordHitIgnoresCase | FileMoverApp.py:42-44 | Changing the text's case changes no answer. |
| Keywords.TitleMatchHits | FileMoverApp.py:41-45 | A keyword found in the title, in any case, makes the event a hit whatever its description. |
| Keywords.DescriptionMatchHits | FileMoverApp.py:41-45 | A keyword found in the description, in any case, makes the event a hit whatever its title. |
| Keywords.KeywordDisplay | FileMoverApp.py:475 | Definition: the editor shows the keywords joined by ", ". `KeywordEditRoundTrip` states that the display parses back to the list. |
| Keywords.StripNonEmpty | FileMoverApp.py:483 | Every entry kept is stripped and non-empty, and there are never more entries than pieces. |
| Keywords.StripNonEmptyMembers | FileMoverApp.py:483 | A keyword is kept exactly when some piece strips to it and it is not empty. Both directions are stated. |
| Keywords.StripNonEmptyConcat | FileMoverApp.py:483 | The keywords of pieces typed one after another are their keywords one after another, so the order is kept. |
| Keywords.ParseKeywords | FileMoverApp.py:483 | Every keyword saved from the editor is stripped, non-empty and free of commas. |
| Keywords.KeywordEditRoundTrip | FileMoverApp.py:475-483 | The editor's `", ".join` display, with the newline the text box appends, parses back to the same list. This holds for every list of stripped, non-empty, comma-free keywords. |
| EventFormat.SearchDateToken | FileMoverApp.py:102 | `re.search(r"\{date:([^}]+)\}")` finds the leftmost position where "{date:" starts a non-empty spec closed by the first `}` after it, and no earlier position matches. |
| EventFormat.DateToken | FileMoverApp.py:102-104 | Definition: the matched text `match.group(0)` and the spec `match.group(1)` of that search. `DateTokenHasColon` states that every match holds "{date:". |
| EventFormat.DateTokenHasColon | FileMoverApp.py:102 | Every date token holds "{date:" and so a `:`. |
| EventFormat.FormatWithDate | FileMoverApp.py:101-110 | Definition: the token's text is replaced by the date rendered with its spec, or else `{date}` by the "%Y%m%d" rendering; then `{event}` is replaced by the title. The lemmas below state what comes out. |
| EventFormat.FormatWithoutPlaceholders | FileMoverApp.py:101-110 | A template without "{date:", `{date}` or `{event}` comes back unchanged. |
| EventFormat.FormatDependsOnlyOnSpecUsed | FileMoverApp.py:102-109 | The date reaches the folder name only through its rendering with one spec: the token's, or "%Y%m%d" when there is no token. Two dates or two renderings that agree on that spec give the same name. |
| EventFormat.FormatKeepsBareDateBesideSpec | FileMoverApp.py:102-106 | For every spec and separator, `{date:spec}<sep>{date}` renders only the token. The bare `{date}` after it is left as it is. |
| EventFormat.FormatEveryDateToken | FileMoverApp.py:102-110 | With a `{date:spec}` token, every occurrence of the token's exact text becomes the spec's rendering, however many there are and whatever brace-free text lies between them; `{event}` has nothing left to replace. |
| EventFormat.FormatEveryDefaultDate | FileMoverApp.py:107-110 | Without a date token, every `{date}` becomes the "%Y%m%d" rendering, however many there are and whatever brace-free text lies between them. |
| EventFormat.FormatEveryEvent | FileMoverApp.py:107-110 | Every `{event}` becomes the title, however many there are. |
| EventFormat.FormatDefaultDateThenTitle | FileMoverApp.py:108-110 | `{date}<sep>{event}` gives the "%Y%m%d" rendering, the separator and the title. This holds when the separator has no `{` or `:` and the rendering has no `{`. |
| EventFormat.FormatDateSpecThenTitle | FileMoverApp.py:102-110 | `{date:<spec>}<sep>{event}` gives the rendering with that spec, the separator and the title. For example "{date:%Y-%m-%d}_{event}" gives "2025-05-29_Show". |
| EventFormat.Yyyymmdd | FileMoverApp.py:109 | The "%Y%m%d" rendering of a date with a four-digit year is eight decimal digits. |
| EventFormat.DefaultFolderName | FileMoverApp.py:107-110 | With the default rendering, `{date}_{event}` names the folder with the eight date digits, `_` and the title. |
| EventFormat.DefaultFolderNameExample | FileMoverApp.py:107-110 | The event "Show" on 29 May 2025 goes to the folder "20250529_Show". |
| FormatValidation.NextBrace | FileMoverApp.py:171-172 | The literal scan stops at the first brace and passes only non-brace characters. |
| FormatValidation.FieldNameEnd | FileMoverApp.py:171-172 | The field-name scan ends at a `}`, `:` or `!`, and any `:` inside the name comes after a `[`. |
| FormatValidation.SpecEnd | FileMoverApp.py:171-172 | The format-spec scan ends at a `}` inside the string. |
| FormatValidation.FieldNameEndAt | FileMoverApp.py:171-172 | The converse of `FieldNameEnd`'s contract for plain names: when a `}`, `:` or `!` follows characters that are not name stops, the scan succeeds and ends exactly there. |
| FormatValidation.SpecEndAt | FileMoverApp.py:171-172 | A brace-free spec followed by `}` is closed exactly at that `}`. |
| FormatValidation.ParseField | FileMoverApp.py:171-172 | A parsed field moves strictly forward, and its name is a prefix of the text after the `{`. |
| FormatValidation.ParseFrom | FileMoverApp.py:170-174 | Every field name the parse yields keeps its `:` behind a `[`. |
| FormatValidation.ParseFormat | FileMoverApp.py:170-174 | Definition: `Formatter().parse` from the start, `None` for the `ValueError`. `ParseRenderRoundTrip`, `UnclosedFieldRejected` and `StrayCloseBraceRejected` state what it accepts and refuses. |
| FormatValidation.ParseRenderRoundTrip | FileMoverApp.py:170-174 | Every template the parser accepts is written back exactly, character for character, by doubling the braces of its literal text and writing each field as `{name!c:spec}`. So the parse loses nothing. |
| FormatValidation.RenderParseRoundTrip | FileMoverApp.py:170-174 | The converse for plain templates: brace-free literal text and fields with a plain name, no conversion and a brace-free spec, once written out, parse back to exactly those pieces. So the parse succeeds on every such template. |
| FormatValidation.FieldNames | FileMoverApp.py:172 | Every name kept is non-empty, and a parsed name keeps any `:` behind a `[`. |
| FormatValidation.FieldNamesMembers | FileMoverApp.py:172 | A name is listed exactly when some piece's field carries it and it is not empty. Both directions are stated. |
| FormatValidation.FieldNamesConcat | FileMoverApp.py:172 | The names of two runs of pieces are their names one after the other, so the order is kept. |
| FormatValidation.ValidateFormat | FileMoverApp.py:163-185 | Definition: no illegal character, the parse succeeds, `{event}` or `{date}` occurs literally, and every field name fully matches the name pattern. The lemmas below state what it accepts. |
| FormatValidation.DateSpecTemplatesRejected | FileMoverApp.py:165-167 | Every template containing "{date:" is rejected, because `:` is in the illegal class. |
| FormatValidation.ValidatedFormatsUseDefaultDate | FileMoverApp.py:165-167 | An accepted template never has a date token, so folder names always use the default date rendering. |
| FormatValidation.ValidatedFieldNamesAreIdentifiers | FileMoverApp.py:180-183 | Every field name of an accepted template is a plain identifier. The `(?::[^{}]*)?` part of the pattern never applies. |
| FormatValidation.UnclosedFieldRejected | FileMoverApp.py:170-174 | For all brace-free text and every name of field characters, a field left open at the end or cut off by a `{` fails to parse, and the template is rejected. |
| FormatValidation.StrayCloseBraceRejected | FileMoverApp.py:170-174 | For all brace-free text and anything after it that does not start with `}`, a lone `}` fails to parse and the template is rejected. |
| FormatValidation.DefaultTemplateAccepted | FileMoverApp.py:163-185 | `{date}<sep>{event}` is accepted whenever the separator holds no brace and no illegal character, for example "{date}_{event}". |
| FormatValidation.ValidateFormatIntended | FileMoverApp.py:163-185 | Definition of the corrected validator. It makes two changes to the one as written. (1) The `:` that opens the first date token's spec is exempt from the illegal class. (2) A `{date:spec}` token counts as a date placeholder in the tag test of lines 176-178, which as written looks only for the literal `{event}` or `{date}`; the help text at line 497 lists `{date:<strftime>}` as the date variable. Everything else is checked as written. `IntendedAgreesWithoutDateToken` and `IntendedExemptsOnlySpecColon` state how far the two validators differ. |
| FormatValidation.IntendedAgreesWithoutDateToken | FileMoverApp.py:163-185 | On templates without a date token the corrected validator and the one as written give the same answer. |
| FormatValidation.IntendedExemptsOnlySpecColon | FileMoverApp.py:165-167 | The only illegal character the corrected validator lets through is the `:` that opens the first date token's spec. |
| FormatValidation.DateSpecTemplateAccepted | FileMoverApp.py:495-500 | `{date:<spec>}<sep>{event}` with a clean spec and separator is accepted by the corrected validator and rejected as written. |
| FormatValidation.AdvertisedExample | FileMoverApp.py:495-500 | The help text's example "{date:%Y-%m-%d}_{event}" is rejected as written and accepted as intended. |
| FormatValidation.SaveFormat | FileMoverApp.py:514-523 | `save_format` as written saves exactly when the stripped entry passes `validate_format`. What it saves is that stripped entry, non-empty and valid. |
| FormatValidation.SaveFormatIdempotent | FileMoverApp.py:509-523 | A saved template, loaded back into the editor and saved again, is saved unchanged. |
| FormatValidation.SaveFormatStripsEntry | FileMoverApp.py:515-521 | For every accepted template and any whitespace around it, the template itself is saved. |
| FormatValidation.SaveFormatRefusesDateSpec | FileMoverApp.py:515-518 | As written, no entry whose stripped text holds "{date:" is ever saved. |
| FormatValidation.SaveFormatIntended | FileMoverApp.py:514-523 | `save_format` with the corrected validator saves exactly when the stripped entry passes it, and saves that stripped, non-empty entry. |
| FormatValidation.SaveFormatIntendedIdempotent | FileMoverApp.py:509-523 | With the corrected validator, saving a saved template again changes nothing. |
| FormatValidation.SaveFormatIntendedStripsEntry | FileMoverApp.py:515-521 | With the corrected validator, whitespace around an accepted template is stripped and the template is saved. |
| FormatValidation.SaveAdvertisedExample | FileMoverApp.py:495-523 | The help text's example cannot be saved as written, and is saved unchanged as intended. |
| ImageExtract.IsImage | FileMoverApp.py:123-125 | Definition: the lower-cased `splitext` extension is a supported one. `ImagesAreTheImageFiles` states which files are kept, and `PathNames.SplitExtHasExtension` states when there is an extension at all. |
| ImageExtract.IsImageIgnoresDirectory | FileMoverApp.py:149-150 | `is_image` of the joined path `os.path.join(root, file)` answers as `is_image(file)` does, for every directory and either separator, so the copy loop may test the walk's file names. |
| ImageExtract.ImagesAreTheImageFiles | FileMoverApp.py:123-125 | The files kept are exactly the image files, each as often as it occurs, with an image meaning a lower-cased extension in the supported set. |
| ImageExtract.Candidate | FileMoverApp.py:154-158 | Definition: the name itself, then `base_1.ext`, `base_2.ext`, and so on. `CandidateInjective` and `FreeName` state its properties. |
| ImageExtract.CandidateInjective | FileMoverApp.py:155-158 | The names the loop tries for one file (`name`, `base_1.ext`, `base_2.ext`, ...) are pairwise different. |
| ImageExtract.FirstFreeUnique | FileMoverApp.py:154-158 | At most one name is the first free candidate. |
| ImageExtract.FreeName | FileMoverApp.py:154-158 | The naming loop ends for every finite directory. It returns a name not in the directory, the first free candidate, and the file's own name when that is free. |
| ImageExtract.FreeNameIsKept | FileMoverApp.py:154-156 | A free name is kept unchanged. |
| ImageExtract.SecondCopyGetsSuffixOne | FileMoverApp.py:157 | A file whose name alone is taken is copied as `base_1.ext`. |
| ImageExtract.CopiedInTurnNeverOverwrites | FileMoverApp.py:147-160 | Copying one image after another never reuses a name that was in the directory or one given earlier. |
| ImageExtract.ExtractAndCopyImages | FileMoverApp.py:128-160 | Each image of the walk gets the first free name at its turn. The directory afterwards is the old one plus the new names. No pre-existing name is overwritten and the new names are pairwise distinct. When the extractor cannot start, nothing is copied. |
| PathNames.SplitExt | FileMoverApp.py:124 | `splitext` gives root + extension == path. The extension is empty or starts with `.` and holds no further `.` or separator. |
| PathNames.SplitExtHasExtension | FileMoverApp.py:124 | The extension is non-empty exactly when the last path component has a `.` with some other character than `.` before it. Both directions are stated. |
| PathNames.SplitExtIgnoresDirectory | FileMoverApp.py:124 | Putting a directory and a separator in front of a name never changes its `splitext` extension, whatever the name holds. |
| PathNames.Basename | FileMoverApp.py:314 | `basename` is the suffix after the last `\` or `/` and holds neither. |
| PathNames.SplitExtExamples | FileMoverApp.py:124 | "photo.JPG", "archive.tar.gz", ".profile" and "dir.d\\README" split as `ntpath.splitext` splits them. |
| Archive.Walk | FileMoverApp.py:327 | A top-down walk starts with the directory itself, at its own path, before anything below it. |
| SmartExtract.ExtractFolderName | FileMoverApp.py:314 | The output folder name holds no separator and, followed by the archive's extension, gives its basename. |
| SmartExtract.ExtractFolderNameExamples | FileMoverApp.py:314 | "C:\\Users\\me\\Downloads\\MyArchive.zip" gives "MyArchive" and "shots/2025.05.29.zip" gives "2025.05.29". |
| SmartExtract.ExtractFolderNameOf | FileMoverApp.py:314 | For every directory and separator, an archive named `stem + ext` is unpacked into the folder `stem`. Here `ext` is the last extension and the stem is a non-empty name that does not start with a dot. |
| SmartExtract.FirstWithFiles | FileMoverApp.py:326-330 | The directory the recursive search finds holds a file. |
| SmartExtract.WalkFindsFirstWithFiles | FileMoverApp.py:327-329 | The recursive search and the first visit with files in the walk are the same directory at the same path. |
| SmartExtract.FindDeepestDirWithFiles | FileMoverApp.py:326-330 | The loop returns the first directory of the walk that holds a file, or the top directory when none does. |
| SmartExtract.TopWithFilesIsChosen | FileMoverApp.py:328-329 | A top directory holding a file is itself the one chosen. |
| SmartExtract.NoFilesFallsBackToTop | FileMoverApp.py:330 | When no directory holds a file, the top directory is chosen. |
| SmartExtract.ChosenIsFirstInWalk | FileMoverApp.py:327-329 | The chosen directory is reached by the walk, and every directory walked before it holds no file. |
| SmartExtract.WrapperCollapses | FileMoverApp.py:326-332 | Wrapping a tree in one more folder without files changes neither which content is moved nor, beyond the extra name, where it was found. |
| SmartExtract.ExtractZipSmart | FileMoverApp.py:313-332 | The folder is named after the archive, and its content is that of the chosen directory. |
| FileMover.Appended | FileMoverApp.py:282-284 | Adding paths keeps the old list as a prefix, holds exactly the old and the new paths, and never introduces a duplicate. |
| FileMover.AppendedIsFirstSeen | FileMoverApp.py:282-284 | After the old list come the new paths, each once, in the order they were first seen. |
| FileMover.AppendedIdempotent | FileMoverApp.py:282-284 | Adding the same paths twice is the same as adding them once. |
| FileMover.StripBraces | FileMoverApp.py:295 | Definition: `path.strip("{").strip("}")`. `StripBracesUnwraps` and `StripBracesKeeps` state what it does to a path. |
| FileMover.StripBracesUnwraps | FileMoverApp.py:295 | A path that Tcl wrapped in braces is unwrapped to the path inside. |
| FileMover.StripBracesKeeps | FileMoverApp.py:295 | A path that neither starts nor ends with a brace is left as it is. |
| FileMover.ActionFor | FileMoverApp.py:440-445 | Definition: a basename ending in ".zip" once lower-cased has its images extracted, and anything else is copied. The four lemmas below state what that means. |
| FileMover.ActionForZip | FileMoverApp.py:440-445 | A file is extracted exactly when its last path component ends in `.` and `z`, `i`, `p`, each letter in either case. Both directions are stated. |
| FileMover.ActionIgnoresCase | FileMoverApp.py:445 | Lower-casing a whole path never changes the action it gets. |
| FileMover.ActionIgnoresDirectory | FileMoverApp.py:440-445 | A file name under any directory gets the action the bare name gets. A directory named like an archive does not make a file one. |
| FileMover.ZipInDirectory | FileMoverApp.py:440-446 | A name ending in ".zip", in any case, under any directory, is extracted. |
| FileMover.UpperCaseZipExtracted | FileMoverApp.py:440-446 | "C:\\in\\A.ZIP" is extracted. |
| FileMover.Plan | FileMoverApp.py:439-448 | The specification of the loop's attempts: one per file, in order. What each attempt holds is stated by `PlanNamesFiles`. |
| FileMover.PlanNamesFiles | FileMoverApp.py:439-448 | Each attempt names its file by a separator-free suffix of its path. It extracts exactly when that name ends in ".zip" in any case. |
| FileMover.Batch | FileMoverApp.py:439-455 | The run tries a prefix of the files in order. No file before the last one tried failed with an error other than a permission error. The run aborts exactly when that last one did. Without an abort, every file is tried. |
| FileMover.BatchAbortsIffSomeFailure | FileMoverApp.py:450-455 | A run aborts exactly when some file fails with an error other than a permission error. |
| FileMover.PermissionErrorsDoNotStop | FileMoverApp.py:450-451 | Permission errors alone never stop a run: every file is tried. |
| FileMover.Process | FileMoverApp.py:440-448 | The inline `basename` and `lower().endswith(".zip")` test of one loop turn give the attempt that `Plan` specifies. `ActionForZip` states what the action means. |
| FileMover.RunBatch | FileMoverApp.py:439-455 | The loop with its early return produces exactly the report of the batch policy. |
| FileMover.FileMoverApp.constructor | FileMoverApp.py:195 | The window starts with no selected paths. |
| FileMover.FileMoverApp.SelectFiles | FileMoverApp.py:280-284 | The list becomes the old list with the chosen paths added, first-seen and without duplicates. |
| FileMover.FileMoverApp.OnDrop | FileMoverApp.py:292-297 | The same, after the braces are stripped from each dropped path. |
| FileMover.FileMoverApp.Execute | FileMoverApp.py:416-460 | Without files nothing happens. With an empty stripped event name and no confirmation the run is cancelled. When the destination folder cannot be created (`os.makedirs`, lines 435-437), `execute` ends before any file is tried and the list is kept. Otherwise the batch runs over the list, and the list is emptied exactly when the batch did not abort. |
| Text.TrimLeft | FileMoverApp.py:295 | `lstrip` drops only characters of the set from the front and leaves a result that does not start with one. |
| Text.TrimRight | FileMoverApp.py:295 | `rstrip` drops only characters of the set from the back and leaves a result that does not end with one. |
| Text.StripPadded | FileMoverApp.py:483 | `strip()` removes whitespace around a stripped word and nothing else. |
| Text.StrippedIsWord | FileMoverApp.py:483 | A non-empty result of `strip()` starts and ends with a non-whitespace character. |
| Text.StripIdempotent | FileMoverApp.py:515-519 | `strip()` twice is `strip()` once, so the second strip in `save_format` changes nothing. |
| Text.ContainsIff | FileMoverApp.py:44 | `p in s` holds exactly when `p` occurs at some position of `s`. |
| Text.ReplaceIsJoinOfSplit | FileMoverApp.py:106-110 | `s.replace(pat, rep)` equals `rep.join(s.split(pat))`. |
| Text.ReplaceAbsent | FileMoverApp.py:106-110 | A pattern that does not occur is not replaced. |
| Text.ReplaceJoin | FileMoverApp.py:106-110 | Replacing the separator of a join, when its first character is in no part, gives the join with the replacement. |
| Text.JoinSplitRoundTrip | FileMoverApp.py:475-483 | Joining the pieces of a split with the same separator gives the string back. |
| Text.SplitJoinRoundTrip | FileMoverApp.py:475-483 | Splitting a join on a one-character separator gives the parts back when none holds that character. |
| Text.SplitPartsAvoidSeparator | FileMoverApp.py:483 | No piece of a split on one character holds that character. |

## Left out

- The GUI is not modelled: windows, widgets, message boxes, the file-list display
  refresh and drag-and-drop binding. Each dialog answer the logic needs is a
  parameter, namely the "continue without an event name?" answer in
  `FileMover.FileMoverApp.Execute`.
- Google OAuth, the token file and the Calendar query are foreign services
  (FileMoverApp.py:49-99, 115-119). The same goes for the orchestration in
  `get_hit_keywords_events`, which maps the matching events through `format_with_date`.
  Only the filter and the template function it calls are modelled.
- The background fetch thread and the other window actions are left out:
  `autofill_event_name`, `fetch_events_list`, `set_event_entry`,
  `reset_google_token` and `select_base_root`. They are concurrency or UI plumbing.
- The placeholder method stubs at FileMoverApp.py:272-277 are left out. Four of them
  are replaced by later definitions of the same name in the class body: `select_files`
  (line 280), `select_base_root` (line 305), `reset_google_token` (line 389) and
  `execute` (line 416). The other two, `fetch_google_events` and `select_event`, are
  never redefined and nothing calls them, so they stay methods that do nothing.
- The filesystem is not modelled. That covers 7-Zip, `zipfile.extractall`,
  `shutil.copy2`/`move`/`rmtree`, `os.makedirs`, `os.walk`, temporary directories and
  `os.path.join` of destination paths. A directory is a set of names or an ordered tree.
  Each file's outcome in `execute` is a parameter.
- ExtractAndCopyImages: 7-Zip's exit code is ignored in the source, and the model
  likewise treats any unpacked tree as complete. An extractor that cannot start is the
  `None` case.
- ExtractZipSmart: models only the name of the output folder and which content is
  moved. It does not model the `_temp` folder or the merge into a folder that already
  exists, and it does not model archive errors. `execute` never calls it.
- Copying a non-archive file in `execute` overwrites a file of the same name without
  renaming. Only its outcome is modelled.
- Dates are not modelled: `strftime`, `fromisoformat` and the clock. Date rendering is
  a function parameter of `FormatWithDate`; only "%Y%m%d" for a four-digit year is
  made concrete.
- Keywords.IsHitKeywordsEvent: `lower()` is ASCII-only here, so non-ASCII letters keep
  their case. Python lowers them too.
- PathNames.SplitExt, PathNames.Basename: drive prefixes such as `C:` are not split
  off, and Windows' case-insensitive file names are compared as exact strings.
- FileMover.FileMoverApp.OnDrop: takes the dropped paths already split into words;
  Tcl's `splitlist` is not modelled.
- The `Field` datatype: `Formatter().parse` reports a missing spec and an empty one
  both as `''`, and a missing conversion as `None`. The model keeps a missing spec
  (`None`) apart from an empty one (`Some("")`), so that a parse can be written back.
  `validate_format` reads only the field names, so its answers are unaffected.
- FileMover.FileMoverApp.Execute: the destination path
  `os.path.join(base_root, event_name, subfolder)` is not built. The result carries the
  stripped event name and subfolder, and whether `os.makedirs` succeeded is a parameter.
- The configuration file I/O in config.py is not part of this model. The keyword list,
  the supported extensions and the template are parameters. decrypt_utils.py
  (download and decryption) and encrypt_credentials.py (a one-off script) are not part
  of this model either.

## Findings

| source | as written | input that shows it | evidently intended | confidence | as-written member | corrected member |
|---|---|---|---|---|---|---|
| FileMoverApp.py:165 | `:` is in the illegal-character class, so every template with a `{date:...}` token is rejected and `save_format` can never save one (`SaveFormatRefusesDateSpec`, `SaveAdvertisedExample`) | "{date:%Y-%m-%d}_{event}", the example the format editor's help text gives (FileMoverApp.py:495-500) | the `:` that opens a date spec is allowed, and a `{date:spec}` token counts as the date placeholder in the tag test of lines 176-178, as `ValidateFormatIntended` does; the help text (line 497 lists `{date:<strftime>}` as the date variable, lines 499-500 give the example) and the `(?::[^{}]*)?` part of the field-name pattern both assume the first; line 497 grounds the second | high, not executed | FormatValidation.DateSpecTemplatesRejected | FormatValidation.DateSpecTemplateAccepted |
