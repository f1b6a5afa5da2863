# quilt, modelled in Dafny

Quilt is a personal notebook: a directory holding a `.quilt` folder with
`todos.json` and one markdown journal file per day, driven by a command line
(`cmd/quilt-cli`), plus a small web interface (`cmd/quilt-web`) and a todo
literal parser (`pkg/parser`). This project models the core of that program
and proves what it does.

What the model covers:

- **The todo-literal parser** (`parser.dfy`). It models `parseTodoLiteral`, its
  `parseText` and `parseTag` scanners, and a specification of the whole scan.
- **Civil dates** (`dates.dfy`). It models the date arithmetic and formats the
  program takes from date-fns and `Date`:
  - `addDays`/`subDays` by one day, `startOfDay`/`endOfDay`, `isAfter` and
    `isSameDay`;
  - the `yyyy-MM-dd` and `EEE, MMM d yyyy` formats, and `toISOString`.
- **The file system** (`files.dfy`). It is a map from paths to directories and
  files, with `existsSync`, `readFile`, `writeFile` and `mkdir -p`.
- **Note decoding** (`note.dfy`). It models `loadNoteFromFile` after the
  markdown parse: front matter from a leading yaml node, the todo entries, and
  the `Note` schema.
- **Journal resolution** (`journal.dfy`). It models the path of a day's entry,
  loading one day's entry, creating it when missing, and collecting the
  entries of a range of days.
- **The command line's helpers** (`main.dfy`):
  - relative date specifiers, `uuid`, and the entry file name and title;
  - `openJournalEntry`'s create-if-absent step;
  - the notebook search and `loadAppConfig`;
  - `ensureQuiltNotebook` and `getTodos`.
- **The version check of the setup script** (`setup.dfy`). It models
  `Number.parseInt` as `mustParseInt` uses it, `parseSemver` and
  `meetsMinimumVersion`.
- **Web helpers:**
  - `fuzzySearch` (`stringutil.dfy`);
  - the Spotlight command filter and its show/hide state (`spotlight.dfy`);
  - the keyboard focus of `List` (`list.dfy`);
  - the theme stylesheets and their registry (`themeutil.dfy`);
  - `cx` (`reactutil.dfy`) and `toError` (`errorutil.dfy`).

The shared modules are `common.dfy` (`Option`, `Result`), `seqs.dfy` (filtering
and subsequences) and `strings.dfy` (substring search, lower-casing, split and
join, decimal digits).

**Code that changes state in place is modelled as imperative Dafny:**

- The parser, the range walk, the todo loops and the CSS builders are methods
  with loops. Each is proved equal to a specification function, and the
  lemmas are proved about that function.
- The list focus, the Spotlight flag and the stylesheet registry are classes
  whose methods update their fields.
- The file system is a value. Each operation returns the new map.

Foreign services are parameters:

- the markdown/YAML parse (`parse: string -> seq<MdNode>`);
- JSON parsing (`parseJson`);
- `new Date(str)` (`parseDate`);
- the random UUID (`random: string`);
- the current time (`now`);
- the environment variable and the working directory.

## Model

| member | source | states |
|---|---|---|
| TodoParser.ParseText | pkg/parser/Parser.ts:21-33 | From an opening quote, the text is every character up to the next quote, spaces included, and the cursor ends after that quote; with no closing quote the result is the "unterminated text literal" error |
| TodoParser.ParseTag | pkg/parser/Parser.ts:35-47 | From a `+`, the name is every character up to the next space, which is consumed, or the end of input; reaching the end is not an error, the name may be empty and never holds a space |
| TodoParser.Step | pkg/parser/Parser.ts:49-62 | One turn of the top-level loop either ends the scan or moves the cursor strictly forward and never past the end of the input |
| TodoParser.ParseTodoLiteral | pkg/parser/Parser.ts:13-65 | For every input on which the top-level loop ends, the method returns the literal the scan specification gives, or the unterminated-literal error exactly when the scan hits it |
| TodoParser.BlankParsesEmpty | pkg/parser/Parser.test.ts:5-18 | Empty or all-space input yields the empty text and no tags |
| TodoParser.QuotedTextVerbatim | pkg/parser/Parser.test.ts:20-36 | A quoted segment becomes the text verbatim, spaces included |
| TodoParser.UnclosedQuoteAt | pkg/parser/Parser.ts:25-32 | Wherever the scan meets a quote that is never closed, after any prefix and with any literal so far, the result is the unterminated-literal error |
| TodoParser.UnclosedQuoteFails | pkg/parser/Parser.ts:25-32 | An input that opens with a quote never closed is the unterminated-literal error |
| TodoParser.TagThenUnclosedQuote | pkg/parser/Parser.ts:25-62 | A quote opened after a tag and never closed (`+a "b`) is the unterminated-literal error |
| TodoParser.LastQuotedWins | pkg/parser/Parser.ts:54-56 | With two quoted segments, the later one is the text |
| TodoParser.TagToEnd | pkg/parser/Parser.ts:39-46 | A tag that runs to the end of input is a tag, not an error |
| TodoParser.PlusInsideTag | pkg/parser/Parser.ts:40-44 | `+a+b` is one tag named `a+b`: inside a tag only a space ends the name |
| TodoParser.OtherCharStallsAt | pkg/parser/Parser.ts:49-62 | Wherever the scan meets a top-level character other than space, quote or plus, after any prefix, the cursor stays in place, so the loop does not end |
| TodoParser.OtherCharStalls | pkg/parser/Parser.ts:49-62 | An input that opens with such a character does not progress |
| TodoParser.TextThenOtherChar | pkg/parser/Parser.ts:49-62 | A stray character after a quoted text and a space (`"buy milk" x`) does not progress |
| TodoParser.QuotedSegment | pkg/parser/Parser.ts:54-56 | After any prefix, a quoted segment is one turn: the text becomes its characters verbatim and the cursor moves past the closing quote |
| TodoParser.TagSegment | pkg/parser/Parser.ts:57-60 | After any prefix, a tag followed by a space is one turn: its name is appended to the tags and the cursor moves past the space |
| TodoParser.FinalTag | pkg/parser/Parser.ts:57-60 | A tag at the end of the input is appended and the cursor reaches the end, with no error |
| TodoParser.SpaceSegment | pkg/parser/Parser.ts:51-53 | A top-level space moves the cursor by one and changes nothing else |
| TodoParser.TagListScans | pkg/parser/Parser.ts:57-60 | Tags after any prefix are appended in encounter order, with no de-duplication or normalisation, and the scan ends after the last |
| TodoParser.RenderedLiteralParses | pkg/parser/Parser.ts:49-62 | `"t" +a +b …` parses to text `t` and the tags in order, for any text without quotes and names without spaces |
| TodoParser.HelloWorldExample | pkg/parser/Parser.test.ts:38-45 | `"hello world" +foo +bar` gives text `hello world` and tags `foo`, `bar` |
| CivilDates.NextDay | cmd/quilt-cli/Journal.ts:55 | The day after a valid date is a valid date |
| CivilDates.PrevNextInverse | cmd/quilt-cli/Main.ts:89-92 | The previous day of the next day, and the next day of the previous day, are the day itself |
| CivilDates.NextDayNumber | cmd/quilt-cli/Journal.ts:55 | The next day is exactly one day later on the day line, across month and year ends and leap days |
| CivilDates.PrevDayNumber | cmd/quilt-cli/Main.ts:89-90 | The previous day is exactly one day earlier on the day line |
| CivilDates.DayNumberOrdered | cmd/quilt-cli/Journal.ts:41 | The day line agrees with calendar order |
| CivilDates.DayNumberInjective | cmd/quilt-cli/Journal.ts:25 | Distinct valid days have distinct day numbers |
| CivilDates.NextDayIsSuccessor | cmd/quilt-cli/Journal.ts:40-56 | No valid day lies strictly between a day and the next one, so the walk misses no day |
| CivilDates.AddOneDay | cmd/quilt-cli/Journal.ts:55 | `addDays(d, 1)` keeps the time of day and moves one day, and one day's milliseconds, forward |
| CivilDates.SubOneDay | cmd/quilt-cli/Main.ts:89-90 | `subDays(d, 1)` keeps the time of day and moves one day back |
| CivilDates.StartAfterEnd | cmd/quilt-cli/Journal.ts:22-25 | The start of one day is after the end of another exactly when its day is later |
| CivilDates.DayStampShape | cmd/quilt-cli/Journal.ts:101 | `yyyy-MM-dd` ends in a dash, two month digits, a dash and two day digits after the year |
| CivilDates.DayStampInjective | cmd/quilt-cli/Journal.ts:100-103 | Different days of the Christian era have different `yyyy-MM-dd` stamps |
| CivilDates.WeekdayAdvances | cmd/quilt-cli/Journal.ts:84 | The weekday in the title advances by one, modulo seven, from one day to the next |
| CivilDates.IsoDateIsDayStamp | cmd/quilt-cli/Journal.ts:88 | For years 1 to 9999 the ISO date part equals the `yyyy-MM-dd` stamp |
| CivilDates.IsoStringDatePart | cmd/quilt-cli/Journal.ts:88 | `toISOString().split("T")[0]` is the ISO date part |
| Files.ReadFile | cmd/quilt-cli/Note.ts:32 | A read succeeds exactly on a file and returns its content |
| Files.MkdirAll | cmd/quilt-cli/Journal.ts:94 | `mkdir -p` succeeds unless a file is on the way; it then makes every directory on the way, changes no existing entry and adds only the missing directories |
| Files.WriteFile | cmd/quilt-cli/Journal.ts:95 | A write succeeds exactly when the parent is a directory and no directory stands at the path; it then sets that one file |
| Files.MkdirAllWellFormed | cmd/quilt-cli/Main.ts:52 | Creating directories keeps every entry in a chain of directories |
| Files.WriteFileWellFormed | cmd/quilt-cli/Main.ts:59-63 | Writing a file keeps every entry in a chain of directories |
| Files.MkdirThenWrite | cmd/quilt-cli/Journal.ts:94-95 | Once `mkdir -p` on the parent succeeds, the write succeeds unless a directory stands at the path |
| NoteCodec.Get | cmd/quilt-cli/Note.ts:36 | Reading a property of `null` is a TypeError; otherwise it is the object's field, or undefined |
| NoteCodec.FrontMatter | cmd/quilt-cli/Note.ts:71-79 | The front matter is the parsed YAML of the first child when it is a yaml node, and `{}` otherwise |
| NoteCodec.DecodeTodo | cmd/quilt-cli/Note.ts:14-19 | A todo validates exactly when it is an object with string `id` and `title` and optional string `notes` and `repeat` |
| NoteCodec.DecodeEncodeTodo | cmd/quilt-cli/Note.ts:14-19 | Decoding the stored form of a todo gives that todo back |
| NoteCodec.NoteTodoIff | cmd/quilt-cli/Note.ts:38 | A `todo` entry becomes a todo exactly when it is a string, with that title and an empty id |
| NoteCodec.CollectTodos | cmd/quilt-cli/Note.ts:35-47 | The loop pushes the entries that validate, in order |
| NoteCodec.StringEntriesBecomeTodos | cmd/quilt-cli/Note.ts:37-45 | Every string entry becomes a todo with id `""` and the entry as title, in list order |
| NoteCodec.NonStringEntrySkipped | cmd/quilt-cli/Note.ts:38-42 | A non-string entry is skipped and the entries around it are kept |
| NoteCodec.CollectedTodoSource | cmd/quilt-cli/Note.ts:37-45 | Every collected todo has an empty id and the title of some string entry |
| NoteCodec.NonListTodoIsEmpty | cmd/quilt-cli/Note.ts:35-36 | When `todo` is not an array, there are no todos |
| NoteCodec.ParseNote | cmd/quilt-cli/Note.ts:22-28 | `Note.parse` succeeds exactly when `id` and `title` are strings and `createdAt` is a date, and otherwise fails with the validation error |
| NoteCodec.LoadNoteAsWrittenAlwaysFails | cmd/quilt-cli/Note.ts:48-54 | As written, with `createdAt: null`, no document loads |
| NoteCodec.LoadNote | cmd/quilt-cli/Note.ts:31-55 | A loaded note has the given creation date and the raw markdown, front matter included, as content |
| NoteCodec.LoadNoteAccepts | cmd/quilt-cli/Note.ts:31-55 | A note loads exactly when its front matter is an object with string `id` and `title`; it then holds those, the markdown, the date and the string entries of `todo` |
| NoteCodec.NoFrontMatterRejected | cmd/quilt-cli/Note.ts:71-79 | Without a leading yaml node the front matter is empty and the note is rejected |
| NoteCodec.LaterYamlIgnored | cmd/quilt-cli/Note.ts:71-76 | Only the first child counts: a yaml node after other content is ignored |
| Journal.JournalFilepathForDate | cmd/quilt-cli/Journal.ts:100-103 | The path is `<notebook>/.quilt/journal/<yyyy-MM-dd>.md` |
| Journal.SameDaySameFile | cmd/quilt-cli/Journal.ts:100-103 | Two instants on the same day map to the same file, and it is the file the command line opens |
| Journal.DifferentDaysDifferentFiles | cmd/quilt-cli/Journal.ts:100-103 | Different days of the Christian era map to different files |
| Journal.GetJournalEntryForDate | cmd/quilt-cli/Journal.ts:60-71 | On the corrected loader `NoteCodec.LoadNote` (see Findings): the result is null exactly when the file is absent; otherwise it is the note loaded from that file with `createdAt` set to the requested date |
| Journal.AsWrittenLoadsNothing | cmd/quilt-cli/Journal.ts:64-70 | On top of the note loader as written, every existing entry fails to load |
| Journal.EntryTemplateShape | cmd/quilt-cli/Journal.ts:84-93 | The template reads back line by line as front matter with `id:`, the `EEE, MMM d yyyy` title, `date:` with the ISO date part only, and an empty `todo:`, then a blank body |
| Journal.EnsureJournalEntryNonClobbering | cmd/quilt-cli/Journal.ts:78-98 | The same path is returned whether or not the file existed; an existing file is not touched, and a missing one is created with the template |
| Journal.EnsureJournalEntryIdempotent | cmd/quilt-cli/Journal.ts:82-97 | A second call returns the same path and leaves the content written by the first |
| Journal.CreatedEntryId | cmd/quilt-cli/Journal.ts:86 | The id line of a new entry starts with `id: note_` |
| Journal.GetJournalEntriesInDateRange | cmd/quilt-cli/Journal.ts:17-58 | On the corrected loader `NoteCodec.LoadNote` (see Findings): the loop's result is the range specification, rejection of a reversed range, otherwise the notes found on the walked days, in order |
| Journal.CollectNotesStep | cmd/quilt-cli/Journal.ts:41-55 | One loop step: the day's lookup, then the rest of the walk from the next day |
| Journal.WalkDays | cmd/quilt-cli/Journal.ts:40-56 | Every day from the start's to the end's is visited exactly once, one day apart, in order |
| Journal.RangeRejected | cmd/quilt-cli/Journal.ts:22-31 | A start day after the end day fails with "end date cannot be before start date" before any lookup |
| Journal.RangeNotes | cmd/quilt-cli/Journal.ts:47-54 | Every note returned is for a day in the range whose file exists, and the notes are in strictly ascending day order |
| Journal.RangeComplete | cmd/quilt-cli/Journal.ts:40-56 | Every day of the range whose file exists has its note in the result |
| Journal.SameDayAtMostOne | cmd/quilt-cli/Journal.ts:22-25 | A one-day range returns at most one note |
| Journal.CollectNotesInOrder | cmd/quilt-cli/Journal.ts:47-54 | The notes found are for a subsequence of the walked days |
| Journal.CollectNotesFromFiles | cmd/quilt-cli/Journal.ts:47-54 | Every note found is for a day whose journal file exists |
| Journal.CollectNotesComplete | cmd/quilt-cli/Journal.ts:47-54 | Every walked day whose file exists contributes its note |
| Journal.CollectNotesLength | cmd/quilt-cli/Journal.ts:47-54 | There are never more notes than days walked |
| CliMain.Uuid | cmd/quilt-cli/Main.ts:268-270 | `uuid(prefix)` starts with `prefix_` and goes on with the random UUID minus its first two characters |
| CliMain.RelativeDateSpecifierIff | cmd/quilt-cli/Main.ts:79-83 | A relative date specifier is exactly `today`, `yesterday` or `tomorrow` |
| CliMain.DateFromString | cmd/quilt-cli/Main.ts:85-101 | `today` is now, `yesterday` is one day earlier and `tomorrow` one day later, at the same time of day; any other text is its parsed date or the "invalid date" error |
| CliMain.RelativeDatesConsecutive | cmd/quilt-cli/Main.ts:86-92 | Yesterday, today and tomorrow are three consecutive days |
| CliMain.JournalEntryFilepath | cmd/quilt-cli/Main.ts:119-126 | The entry path is `<notebook>/.quilt/journal/<yyyy-MM-dd>.md` |
| CliMain.OpenTemplateLinesRoundTrip | cmd/quilt-cli/Main.ts:178-186 | The opened template reads back line by line: the id, the title and the full ISO timestamp each on their own line |
| CliMain.OpenJournalEntryCreatesOnlyIfAbsent | cmd/quilt-cli/Main.ts:175-189 | The template is written only when the file is absent; an existing file is left unchanged |
| CliMain.OpenJournalEntryIdempotent | cmd/quilt-cli/Main.ts:175-189 | A second open of the same day changes nothing, whatever UUID it draws |
| CliMain.FindNearestQuiltNotebook | cmd/quilt-cli/Main.ts:218-229 | The search returns the nearest ancestor directory, the start included, that holds `.quilt`, or null when none does up to the root |
| CliMain.FindFromInsideNotebook | cmd/quilt-cli/Main.ts:218-229 | From inside a notebook the search finds that notebook or a nearer one |
| CliMain.LoadAppConfig | cmd/quilt-cli/Main.ts:201-246 | The environment's notebook is used when it holds `.quilt`, with a warning otherwise; then the upward search runs; with neither, "could not find quilt notebook" |
| CliMain.EnsureQuiltNotebookNonClobbering | cmd/quilt-cli/Main.ts:47-72 | Nothing that existed is changed, and afterwards `.quilt`, `todos.json` and `journal` all exist |
| CliMain.EnsureQuiltNotebookIdempotent | cmd/quilt-cli/Main.ts:50-67 | Initialising an initialised notebook changes nothing |
| CliMain.EnsureQuiltNotebookFresh | cmd/quilt-cli/Main.ts:47-72 | A directory without `.quilt` is initialised in full, `todos.json` holding `{todos: []}`, and becomes a notebook |
| CliMain.FreshQuiltDir | cmd/quilt-cli/Main.ts:50-53 | Making `.quilt` inside an existing directory succeeds |
| CliMain.FreshTodosFile | cmd/quilt-cli/Main.ts:55-64 | After `.quilt` is made, `todos.json` can be written and `journal` is still missing |
| CliMain.FreshJournalDir | cmd/quilt-cli/Main.ts:66-70 | After the write, making `journal` succeeds |
| CliMain.GetTodos | cmd/quilt-cli/Main.ts:248-266 | The loop's result is the specification: read, parse, then the valid entries of `data.todo` in order, or `[]` when it is not an array |
| CliMain.StoredTodosKeepsValid | cmd/quilt-cli/Main.ts:257-264 | An invalid entry is skipped and only it is dropped |
| CliMain.StoredTodosIgnoresWrittenKey | cmd/quilt-cli/Main.ts:58 | Todos stored under `todos`, the key the notebook is created with, are never read back |
| CliMain.StoredTodosFixedRoundTrip | cmd/quilt-cli/Main.ts:252 | Reading the key that is written gives back exactly the todos stored |
| CliMain.InitialTodosEmpty | cmd/quilt-cli/Main.ts:58 | The file written at initialisation holds no todos |
| Setup.TrimStart | tools/Setup.js:126 | `parseInt` first drops the leading white space and nothing else |
| Setup.ParseIntSkipsSpace | tools/Setup.js:126 | Leading white space does not change the number read |
| Setup.ParseIntAtDigit | tools/Setup.js:126 | Text starting with a digit is read in base 10 unless it starts with `0x`, with or without a minus sign |
| Setup.ParseIntStopsAtNonDigit | tools/Setup.js:126 | Reading stops at the first non-digit |
| Setup.ParseIntDecimal | tools/Setup.js:126 | Reading a number's decimal spelling gives the number back |
| Setup.NoDigitIsNaN | tools/Setup.js:126-127 | Text starting with neither white space, a sign nor a digit is NaN |
| Setup.UndefinedIsNaN | tools/Setup.js:113-121 | The text of a missing part, "undefined", is NaN |
| Setup.MustParseInt | tools/Setup.js:125-131 | The number when parsing succeeds, otherwise the error naming the text |
| Setup.ParseSemver | tools/Setup.js:111-123 | A failure is the error for one of the three parts |
| Setup.ParseRender | tools/Setup.js:111-123 | Parsing the spelling `M.m.p` of a version gives it back |
| Setup.ParseSemverIgnoresSuffix | tools/Setup.js:114 | Everything from the first `-` on is ignored |
| Setup.ParseSemverAfterEquals | tools/Setup.js:115-116 | Only the text after the last `=` counts, so `>=18.0.0` reads as 18.0.0 |
| Setup.MissingPatchFails | tools/Setup.js:117-131 | A version with no patch, such as `1.2`, fails on the text "undefined" |
| Setup.MeetsMinimumVersion | tools/Setup.js:94-109 | The result is the comparison of the two parsed versions, and a parse error of the installed version comes first |
| Setup.AtLeastIsLexicographic | tools/Setup.js:97-108 | The nested comparison is exactly lexicographic `>=` on (major, minor, patch) |
| Setup.AtLeastReflexive | tools/Setup.js:102-104 | Every version meets itself as a minimum |
| Setup.AtLeastTotal | tools/Setup.js:97-108 | Of two versions, one always meets the other |
| Setup.AtLeastTransitive | tools/Setup.js:97-108 | Meeting a minimum is transitive |
| Setup.AtLeastAntisymmetric | tools/Setup.js:97-108 | Two versions that meet each other are equal |
| Setup.MajorDecides | tools/Setup.js:97-99 | A larger major meets the minimum whatever the rest, and a smaller one never does |
| Setup.MeetsRenderedVersions | tools/Setup.js:94-123 | On plainly spelled versions the check is exactly the lexicographic comparison |
| StringUtil.FuzzySearch | cmd/quilt-web/util/StringUtil.tsx:8-17 | Only items whose search text contains the search value are kept, and there are never more than were given |
| StringUtil.FuzzySearchKeeps | cmd/quilt-web/util/StringUtil.tsx:13-16 | An item is kept exactly when its search text contains the search value |
| StringUtil.FuzzySearchKeepsOrder | cmd/quilt-web/util/StringUtil.tsx:13 | The result is a subsequence of the input |
| StringUtil.EmptySearchKeepsAll | cmd/quilt-web/util/StringUtil.tsx:15 | An empty search value keeps every item |
| StringUtil.FuzzySearchIdempotent | cmd/quilt-web/util/StringUtil.tsx:13-16 | Searching the result again with the same value returns it unchanged |
| StringUtil.FuzzySearchCaseSensitive | cmd/quilt-web/util/StringUtil.tsx:15 | Matching is case-sensitive: `journal` does not find `Journal` |
| Spotlight.AnyAliasMatches | cmd/quilt-web/ui/Spotlight.tsx:48-50 | True exactly when some lower-cased alias contains the lowered search text |
| Spotlight.FilterCommandsKeeps | cmd/quilt-web/ui/Spotlight.tsx:43-53 | A command is shown exactly when its lower-cased name or some lower-cased alias contains the lower-cased search text |
| Spotlight.NoAliasesMatchesName | cmd/quilt-web/ui/Spotlight.tsx:48 | A command without aliases is matched on its name alone |
| Spotlight.FilterIgnoresCase | cmd/quilt-web/ui/Spotlight.tsx:44 | Search texts equal up to case show the same commands |
| Spotlight.NameFoundInAnyCase | cmd/quilt-web/ui/Spotlight.tsx:47 | A command is found by its own name, whatever its case |
| Spotlight.FilterCommandsOrder | cmd/quilt-web/ui/Spotlight.tsx:45-52 | The shown commands keep the palette's order, and an empty search shows them all |
| Spotlight.ToggleOnKeyBehaviour | cmd/quilt-web/ui/Spotlight.tsx:13-17 | Ctrl or Meta with `k` flips the flag, any other key leaves it, and the shortcut twice restores it |
| Spotlight.SpotlightState.HandleKeydown | cmd/quilt-web/ui/Spotlight.tsx:13-17 | The flag becomes the toggled value |
| Spotlight.SpotlightState.Close | cmd/quilt-web/ui/Spotlight.tsx:29-31 | Closing hides the palette |
| Spotlight.SpotlightState.ConfirmItem | cmd/quilt-web/ui/Spotlight.tsx:72-75 | Confirming hides the palette and hands back the confirmed command to run |
| FocusList.IndexOfItem | cmd/quilt-web/ui/List.tsx:51 | `indexOf` is the first position of the focused item, or -1 when nothing is focused or it is not in the list |
| FocusList.ResetFocus | cmd/quilt-web/ui/List.tsx:25-31 | The reset focus is nothing, or the first item when `autoFocusFirstItem` is set and there is one |
| FocusList.ArrowDownNext | cmd/quilt-web/ui/List.tsx:47-59 | ArrowDown moves to the next item, and from the last one wraps to the first |
| FocusList.ArrowUpPrevious | cmd/quilt-web/ui/List.tsx:45-59 | ArrowUp moves to the previous item, and from the first one wraps to the last |
| FocusList.NothingFocused | cmd/quilt-web/ui/List.tsx:51-58 | With nothing focused, ArrowDown focuses the first item and ArrowUp the last |
| FocusList.ArrowStaysInList | cmd/quilt-web/ui/List.tsx:50-59 | On a non-empty list an arrow key always focuses one of its items |
| FocusList.EnterConfirms | cmd/quilt-web/ui/List.tsx:37-43 | Enter confirms the focused item, or the first when none is focused, nothing on an empty list, and leaves the focus |
| FocusList.OtherKeysIgnored | cmd/quilt-web/ui/List.tsx:44-50 | Any other key changes nothing and confirms nothing |
| FocusList.ArrowUpUndoesArrowDown | cmd/quilt-web/ui/List.tsx:50-59 | In a list without repeated items, ArrowUp undoes ArrowDown |
| FocusList.ListState.constructor | cmd/quilt-web/ui/List.tsx:21-31 | The first render keeps the items and runs the reset effect |
| FocusList.ListState.PropsChanged | cmd/quilt-web/ui/List.tsx:25-31 | When the items or `autoFocusFirstItem` change, both are taken and the focus is reset to nothing, or to the first new item when the new flag is set |
| FocusList.ListState.HandleKeydown | cmd/quilt-web/ui/List.tsx:36-62 | The handler over the current items: focus and confirmation as the key step gives them, and the focus stays on the list |
| FocusList.ListState.HandleKeydownAsWritten | cmd/quilt-web/ui/List.tsx:22-62 | The handler as written navigates the items of the first render |
| FocusList.ListState.Navigate | cmd/quilt-web/ui/List.tsx:36-62 | The handler body over a given list matches the key step, and keeps a focus on that list on it |
| FocusList.StaleItemsLeaveTheList | cmd/quilt-web/ui/List.tsx:22-67 | With items `[1, 2, 3]` at mount and `[3]` now, ArrowDown from 3 focuses 1, which is not in the list |
| ThemeUtil.BgVariants | cmd/quilt-web/theme/ThemeUtil.ts:26-28 | `bg("primary")` is `var(--bgPrimary)`, and any other variant gives `var(--bgSecondary)` |
| ThemeUtil.BuildThemeCss | cmd/quilt-web/theme/ThemeUtil.ts:47-52 | The built text is the theme's stylesheet |
| ThemeUtil.ThemeCssLines | cmd/quilt-web/theme/ThemeUtil.ts:47-52 | Line by line, a theme's stylesheet is `[data-theme="<name>"] {`, then `--<token>: <value>;` per token in entry order, then `}` |
| ThemeUtil.BuildUtilitiesCss | cmd/quilt-web/theme/ThemeUtil.ts:58-64 | The built text is the utilities stylesheet of the scale |
| ThemeUtil.UtilitiesCssLines | cmd/quilt-web/theme/ThemeUtil.ts:58-64 | Line by line, the utilities stylesheet is `:root {`, then ` --spacing-<k>: <v>;` per key in order, then `}` |
| ThemeUtil.SpacingScale | cmd/quilt-web/theme/ThemeUtil.ts:18-25 | The spacing scale has six keys, `1` to `6`, with no line breaks |
| ThemeUtil.InjectOnce | cmd/quilt-web/theme/ThemeUtil.ts:42-56 | A fresh name appends exactly one sheet after the existing ones and registers the name; a registered name changes nothing |
| ThemeUtil.InjectIdempotentByName | cmd/quilt-web/theme/ThemeUtil.ts:43-55 | Injecting again under the same name, whatever the tokens, changes nothing |
| ThemeUtil.StyleRegistry.InjectThemeAsStylesheet | cmd/quilt-web/theme/ThemeUtil.ts:42-56 | The sheets and the registry are updated as the injection specification says |
| ThemeUtil.StyleRegistry.InjectThemeUtilities | cmd/quilt-web/theme/ThemeUtil.ts:58-67 | The utilities sheet is appended on every call, and the registry is unchanged |
| ReactUtil.CxAllFalsy | pkg/util/ReactUtil.tsx:3-5 | With no arguments, or only falsy ones, the result is `""` |
| ReactUtil.CxEmptyIff | pkg/util/ReactUtil.tsx:4 | The result is empty exactly when no argument is truthy |
| ReactUtil.CxSingle | pkg/util/ReactUtil.tsx:4 | A single non-empty class name comes back unchanged |
| ReactUtil.CxDropsFalsy | pkg/util/ReactUtil.tsx:4 | A falsy argument, wherever it stands, changes nothing |
| ReactUtil.CxWords | pkg/util/ReactUtil.tsx:4 | Split at the spaces, the result gives back the texts of the truthy arguments, in their original order |
| ErrorUtil.ToError | pkg/util/ErrorUtil.ts:1-12 | An Error comes back as the same object; a string becomes a new Error with that message; anything else becomes a new Error with "unknown error" and the raw value as `cause` |

## Left out

- **Markdown, YAML and JSON parsing.** These are foreign libraries, so they are parameters. A document is the list of its top-level nodes, and a yaml node carries its parse outcome.
- **Integer fields of parsed values.** Numbers in parsed YAML and JSON are integers. Floating point and NaN in front matter are not modelled.
- **Time zones.** Local time is taken to be UTC, so `format` and `toISOString` agree on the day. The `date-fns` locale is English.
- **`new Date(str)`.** Parsing of an absolute date is a parameter.
- **Clock and randomness.** The clock (`new Date()`) and `crypto.randomUUID` are parameters.
- **`Date` range.** Instants are a civil date and the milliseconds into the day. The ±8.64e15 ms limit of `Date` is not modelled.
- **The UUID draw.** `uuid` takes the random UUID as a string. Its format is not checked.
- **`Number.parseInt` rounding, overflow and negatives.** `Setup.ParseInt` returns the exact integer of the digits, whereas `Number.parseInt` returns a double: digit runs above 2^53 are rounded, so `meetsMinimumVersion("0.0.9007199254740993", "0.0.9007199254740992")` is true in the source and `Setup.MeetsMinimumVersion` gives false. The model assumes every version component is below 2^53. Overflow to `Infinity` (more than about 309 digits) is not modelled either, so `mustParseInt` accepts such text. Negative numbers are modelled, but only `Setup.ParseIntAtDigit` states the result of reading a minus sign.
- **Lower-casing.** `toLocaleLowerCase` is modelled on ASCII letters only. Other characters are kept as they are.
- **File-system errors.** They are reduced to their POSIX codes (ENOENT, EISDIR, ENOTDIR, EEXIST). Permissions and the `.md` file being replaced between the existence check and the write (a race) are not modelled.
- **Note validation errors.** A `ZodError`'s list of issues is reduced to one message.
- **Logging.** The logger's debug and warning output is not modelled. Only `CliMain.LoadAppConfig`'s warning is reported, as a flag.
- **The editor.** `openFileEditor` (`$EDITOR`) is not modelled; `openJournalEntry` is modelled up to the write.
- Journal.GetJournalEntryForDate and Journal.GetJournalEntriesInDateRange load notes through the corrected `NoteCodec.LoadNote`. As written, `loadNoteFromFile` rejects every existing entry (the `createdAt: null` finding), so in the source the single-day lookup returns null or throws, and the range lookup returns `[]` or throws at the first day in the range whose file exists. Only the single day has an as-written twin (`Journal.AsWrittenLoadsNothing`).
- **Other command-line code.** `main`'s argument dispatch, `loadJournalEntry`, `getTodosForDate` (it returns `[]` whatever it reads) and `printJournalEntry` are not modelled.
- **Setup probes.** The `execSync` probes and installs of `tools/Setup.js` are not modelled.
- **Reading values.** `NoteCodec.Get`: reading a property is modelled for object keys only. Array indices and string properties are not.
- **Environment variable.** `$QUILT_DEFAULT_NOTEBOOK` unset and set to the empty string are both `None`; both skip it in the source.
- **Non-terminating parser input.** `TodoParser.ParseTodoLiteral` requires that the top-level loop ends (`Progresses`). On a top-level character other than space, `"` or `+`, the source never returns, and `TodoParser.OtherCharStallsAt` states that such input, wherever the scan reaches the character, does not satisfy the requirement.
- **List item equality.** `FocusList.IndexOfItem` compares items by value. The source's `indexOf` compares objects by identity.
- **Falsy list items.** Enter on a falsy first item (`0`, `""`) confirms nothing in the source. The model treats every item as truthy.
- **Running commands.** `runCommand` and `Commands.tsx` are not modelled. `Spotlight.SpotlightState.ConfirmItem` returns the command to run.
- **Rendering.** `cx` is modelled; rendering, `useForceUpdate` and the DOM are not.
- **Stylesheet objects.** `CSSStyleSheet`, `document.adoptedStyleSheets` and `setAttribute("data-theme")` are modelled as the CSS texts held in `ThemeUtil.StyleRegistry`. The `effect` that re-runs theme injection is not modelled.
- **Unknown thrown values.** `ErrorUtil.ToError`: a thrown value that is neither an `Error` nor a string is kept only as a description of itself.
- **`cx` arguments.** `ReactUtil.Cx` covers strings, booleans, integers, `null` and `undefined`. Objects, arrays and non-integer numbers are not modelled.

## Findings

| source | as written | input that shows it | evidently intended | confidence | as-written member | corrected member |
|---|---|---|---|---|---|---|
| cmd/quilt-cli/Note.ts:24,51 | `loadNoteFromFile` validates `createdAt: null` against `z.date()` | any journal file, for example one with `id: a` and `title: b` in its front matter | the caller sets `createdAt` to the requested date, so the loader should accept it | not executed | NoteCodec.LoadNoteAsWrittenAlwaysFails | NoteCodec.LoadNoteAccepts |
| cmd/quilt-cli/Main.ts:58,252 | `ensureQuiltNotebook` writes the key `todos` but `getTodos` reads `todo` | a `todos.json` holding `{"todos": [{"id": "1", "title": "x"}]}` gives `[]` | the key that is written is the key that is read | not executed | CliMain.StoredTodosIgnoresWrittenKey | CliMain.StoredTodosFixedRoundTrip |
| cmd/quilt-web/ui/List.tsx:22,36-61,67 | the key handler reads `itemsRef.current` and `items` from the first render; the effect depends on `[listRef]` only | items `[1, 2, 3]` at mount, then `[3]`, with 3 focused: ArrowDown focuses 1 | navigation over the items currently shown | not executed | FocusList.StaleItemsLeaveTheList | FocusList.ArrowStaysInList |
