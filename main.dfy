/**
 * The command-line front end of `cmd/quilt-cli/Main.ts`: locating the
 * notebook, initialising it, reading the stored todos, resolving a date
 * argument and creating a journal entry before it is opened.
 *
 * The clock (`new Date()`), `crypto.randomUUID()`, the environment, the
 * working directory and the file system are parameters.
 */
module CliMain {
  import opened Common
  import opened Seqs
  import opened Strings
  import opened CivilDates
  import opened Files
  import opened NoteCodec

  datatype AppConfig = AppConfig(notebookDir: Path)

  /** `uuid(prefix)`: the prefix, an underscore, then a random UUID without its first two characters. */
  function Uuid(prefix: string, random: string): (id: string)
    ensures prefix + "_" <= id
    ensures |random| >= 2 ==> id[|prefix| + 1..] == random[2..]
    ensures |random| < 2 ==> id == prefix + "_"
  {
    prefix + "_" + (if |random| >= 2 then random[2..] else "")
  }

  // Dates on the command line

  const RelativeDateSpecifiers: seq<string> := ["today", "yesterday", "tomorrow"]

  predicate IsRelativeDateSpecifier(s: string)
  {
    s in RelativeDateSpecifiers
  }

  lemma RelativeDateSpecifierIff(s: string)
    ensures IsRelativeDateSpecifier(s) <==> s == "today" || s == "yesterday" || s == "tomorrow"
  {
  }

  function InvalidDateMessage(s: string): string
  {
    "invalid date: \"" + s + "\""
  }

  /**
   * `dateFromString(s)` at the moment `now`; `parseDate` is `new Date(s)`,
   * None standing for an invalid date.
   */
  function DateFromString(s: string, now: Instant, parseDate: string -> Option<Instant>): (r: Result<Instant>)
    requires ValidInstant(now)
    ensures s == "today" ==> r == Ok(now)
    ensures s == "yesterday" ==> r.Ok? && ValidInstant(r.value) && r.value.ms == now.ms && DayNumber(r.value.date) == DayNumber(now.date) - 1
    ensures s == "tomorrow" ==> r.Ok? && ValidInstant(r.value) && r.value.ms == now.ms && DayNumber(r.value.date) == DayNumber(now.date) + 1
    ensures !IsRelativeDateSpecifier(s) ==> (r.Ok? <==> parseDate(s).Some?)
    ensures !IsRelativeDateSpecifier(s) && r.Ok? ==> r.value == parseDate(s).value
    ensures r.Err? ==> r.error == InvalidDateMessage(s)
  {
    if s == "today" then Ok(now)
    else if s == "yesterday" then Ok(SubOneDay(now))
    else if s == "tomorrow" then Ok(AddOneDay(now))
    else
      var date := parseDate(s);
      if date.None? then Err(InvalidDateMessage(s)) else Ok(date.value)
  }

  /** Yesterday, today and tomorrow are three consecutive days at the same time of day. */
  lemma RelativeDatesConsecutive(now: Instant, parseDate: string -> Option<Instant>)
    requires ValidInstant(now)
    ensures var y := DateFromString("yesterday", now, parseDate).value;
            var t := DateFromString("tomorrow", now, parseDate).value;
            ValidInstant(y) && ValidInstant(t)
            && NextDay(y.date) == now.date && NextDay(now.date) == t.date
            && PrevDay(t.date) == now.date
  {
    PrevNextInverse(now.date);
  }

  // Journal entry names

  /** `getJournalEntryFilename`: `yyyy-MM-dd`. */
  function JournalEntryFilename(date: Instant): string
    requires ValidDate(date.date)
  {
    DayStamp(date.date)
  }

  /** `getJournalEntryFilepath`: `<notebook>/.quilt/journal/<yyyy-MM-dd>.md`. */
  function JournalEntryFilepath(config: AppConfig, date: Instant): (p: Path)
    requires ValidDate(date.date)
    ensures |p| == |config.notebookDir| + 3
    ensures Dirname(p) == config.notebookDir + [".quilt", "journal"]
    ensures p[|p| - 1] == JournalEntryFilename(date) + ".md"
  {
    config.notebookDir + [".quilt", "journal", JournalEntryFilename(date) + ".md"]
  }

  /** `getJournalEntryTitle`: `EEE, MMM d yyyy`. */
  function JournalEntryTitle(date: Instant): string
    requires ValidDate(date.date)
  {
    DayTitle(date.date)
  }

  /** Front matter with id, title, creation time and an empty todo list, then a blank body. */
  function OpenLines(id: string, title: string, createdAt: string): seq<string>
  {
    ["---", "id: " + id, "title: " + title, "createdAt: " + createdAt, "todo:", "---", "", ""]
  }

  /** The lines of the note `openJournalEntry` creates; the file is these joined by newlines. */
  function OpenTemplateLines(id: string, date: Instant): seq<string>
    requires ValidInstant(date)
  {
    OpenLines(id, JournalEntryTitle(date), IsoString(date))
  }

  /** No line holds a line break when the id, title and timestamp hold none. */
  lemma OpenLinesOneLine(id: string, title: string, createdAt: string)
    requires '\n' !in id && '\n' !in title && '\n' !in createdAt
    ensures forall k | 0 <= k < |OpenLines(id, title, createdAt)| :: '\n' !in OpenLines(id, title, createdAt)[k]
  {
    var lines := OpenLines(id, title, createdAt);
    forall k | 0 <= k < |lines| ensures '\n' !in lines[k] {
      if k >= 4 {
        assert lines[k] == ["todo:", "---", "", ""][k - 4];
      }
    }
  }

  function OpenTemplate(id: string, date: Instant): string
    requires ValidInstant(date)
  {
    Join(OpenTemplateLines(id, date), "\n")
  }

  /** The template reads back line by line: the id, the title and the full ISO timestamp each on their own line. */
  lemma OpenTemplateLinesRoundTrip(id: string, date: Instant)
    requires ValidInstant(date)
    requires '\n' !in id
    ensures Split(OpenTemplate(id, date), '\n') == OpenTemplateLines(id, date)
  {
    DayTitleOneLine(date.date);
    IsoStringOneLine(date);
    OpenLinesOneLine(id, JournalEntryTitle(date), IsoString(date));
    SplitJoin(OpenTemplateLines(id, date), '\n');
  }

  /**
   * `openJournalEntry` up to launching the editor: the note file for the day
   * is created from the template only when nothing is at its path.
   */
  function OpenJournalEntry(fs: FileSystem, config: AppConfig, date: Instant, random: string): (r: Result<FileSystem>)
    requires ValidInstant(date)
  {
    var file := JournalEntryFilepath(config, date);
    if Exists(fs, file) then Ok(fs)
    else
      var fs1 :- MkdirAll(fs, Dirname(file));
      WriteFile(fs1, file, OpenTemplate(Uuid("note", random), date))
  }

  /**
   * Opening never clobbers: an existing entry leaves the file system as it
   * is, and otherwise the only new file is the template at the day's path.
   */
  lemma OpenJournalEntryCreatesOnlyIfAbsent(fs: FileSystem, config: AppConfig, date: Instant, random: string)
    requires ValidInstant(date)
    ensures var file := JournalEntryFilepath(config, date);
            Exists(fs, file) ==> OpenJournalEntry(fs, config, date, random) == Ok(fs)
    ensures var file := JournalEntryFilepath(config, date);
            var r := OpenJournalEntry(fs, config, date, random);
            !Exists(fs, file) && r.Ok? ==>
              r.value[file] == File(OpenTemplate(Uuid("note", random), date))
              && (forall p | p in fs :: p in r.value && r.value[p] == fs[p])
              && (forall p | p in r.value && p !in fs :: p == file || p in Prefixes(Dirname(file)))
    ensures var file := JournalEntryFilepath(config, date);
            !Exists(fs, file) && !BlockedByFile(fs, Dirname(file)) ==> OpenJournalEntry(fs, config, date, random).Ok?
  {
    var file := JournalEntryFilepath(config, date);
    if !Exists(fs, file) && !BlockedByFile(fs, Dirname(file)) {
      MkdirThenWrite(fs, file, OpenTemplate(Uuid("note", random), date));
    }
  }

  /** A second open of the same day changes nothing, whatever UUID it draws. */
  lemma OpenJournalEntryIdempotent(fs: FileSystem, config: AppConfig, date: Instant, random: string, random': string)
    requires ValidInstant(date)
    requires OpenJournalEntry(fs, config, date, random).Ok?
    ensures var fs' := OpenJournalEntry(fs, config, date, random).value;
            OpenJournalEntry(fs', config, date, random') == Ok(fs')
  {
    OpenJournalEntryCreatesOnlyIfAbsent(fs, config, date, random);
  }

  // Finding the notebook

  /** `isDirectoryQuiltNotebook`: the directory holds a `.quilt` entry. */
  predicate IsQuiltNotebook(fs: FileSystem, dir: Path)
  {
    Exists(fs, dir + [".quilt"])
  }

  /**
   * `findNearestQuiltNotebook`: `dir` itself or its nearest ancestor that is
   * a notebook; the walk stops at the root, where `dirname` is a fixed point.
   */
  function FindNearestQuiltNotebook(fs: FileSystem, dir: Path): (r: Option<Path>)
    ensures r.Some? ==> r.value <= dir && IsQuiltNotebook(fs, r.value)
    ensures r.Some? ==> forall k | |r.value| < k <= |dir| :: !IsQuiltNotebook(fs, dir[..k])
    ensures r.None? ==> forall k | 0 <= k <= |dir| :: !IsQuiltNotebook(fs, dir[..k])
    decreases |dir|
  {
    if IsQuiltNotebook(fs, dir) then
      Some(dir)
    else if |dir| >= 1 then
      var parent := Dirname(dir);
      assert forall k | 0 <= k <= |parent| :: parent[..k] == dir[..k];
      assert dir[..|dir|] == dir;
      FindNearestQuiltNotebook(fs, parent)
    else
      assert dir[..0] == dir;
      None
  }

  /** The search from inside a notebook finds that notebook or a nearer one below it. */
  lemma FindFromInsideNotebook(fs: FileSystem, notebook: Path, dir: Path)
    requires notebook <= dir && IsQuiltNotebook(fs, notebook)
    ensures FindNearestQuiltNotebook(fs, dir).Some?
    ensures |notebook| <= |FindNearestQuiltNotebook(fs, dir).value|
  {
    var r := FindNearestQuiltNotebook(fs, dir);
    assert dir[..|notebook|] == notebook;
  }

  const NoNotebookMessage: string := "could not find quilt notebook"

  /**
   * `loadAppConfig`: `$QUILT_DEFAULT_NOTEBOOK` (`env`, None when unset or
   * empty) when it is a notebook, else a warning and the upward search from
   * the working directory, else an error. `warned` is the logged warning.
   */
  method LoadAppConfig(fs: FileSystem, env: Option<Path>, cwd: Path) returns (r: Result<AppConfig>, warned: bool)
    ensures warned <==> env.Some? && !IsQuiltNotebook(fs, env.value)
    ensures env.Some? && IsQuiltNotebook(fs, env.value) ==> r == Ok(AppConfig(env.value))
    ensures !(env.Some? && IsQuiltNotebook(fs, env.value)) ==>
              r == (var found := FindNearestQuiltNotebook(fs, cwd);
                    if found.Some? then Ok(AppConfig(found.value)) else Err(NoNotebookMessage))
    ensures r.Ok? ==> IsQuiltNotebook(fs, r.value.notebookDir)
    ensures r.Err? ==> r.error == NoNotebookMessage
  {
    var notebookDir: Option<Path> := None;
    warned := false;
    if env.Some? {
      if !IsQuiltNotebook(fs, env.value) {
        warned := true;
      } else {
        notebookDir := env;
      }
    }
    if notebookDir.None? {
      var dir := FindNearestQuiltNotebook(fs, cwd);
      if dir.Some? {
        notebookDir := dir;
      }
    }
    if notebookDir.None? {
      return Err(NoNotebookMessage), warned;
    }
    r := Ok(AppConfig(notebookDir.value));
  }

  // Initialising a notebook

  /** `JSON.stringify({todos: []}, null, 4)`. */
  const InitialTodosJson: string := "{\n    \"todos\": []\n}"

  function QuiltDir(dir: Path): Path { dir + [".quilt"] }

  function TodosFile(dir: Path): Path { dir + [".quilt", "todos.json"] }

  function JournalDir(dir: Path): Path { dir + [".quilt", "journal"] }

  /** Runs `step` on `fs` only when nothing is at `p`. */
  function IfAbsent(fs: FileSystem, p: Path, step: Result<FileSystem>): Result<FileSystem>
  {
    if Exists(fs, p) then Ok(fs) else step
  }

  /** `ensureQuiltNotebook(dir)`: `.quilt`, `.quilt/todos.json` and `.quilt/journal`, each made only when missing. */
  function EnsureQuiltNotebook(fs: FileSystem, dir: Path): Result<FileSystem>
  {
    var fs1 :- IfAbsent(fs, QuiltDir(dir), MkdirAll(fs, QuiltDir(dir)));
    var fs2 :- IfAbsent(fs1, TodosFile(dir), WriteFile(fs1, TodosFile(dir), InitialTodosJson));
    IfAbsent(fs2, JournalDir(dir), MkdirAll(fs2, JournalDir(dir)))
  }

  /** Nothing that existed is changed, and afterwards all three entries exist. */
  lemma EnsureQuiltNotebookNonClobbering(fs: FileSystem, dir: Path)
    requires EnsureQuiltNotebook(fs, dir).Ok?
    ensures var fs' := EnsureQuiltNotebook(fs, dir).value;
            (forall p | p in fs :: p in fs' && fs'[p] == fs[p])
            && Exists(fs', QuiltDir(dir)) && Exists(fs', TodosFile(dir)) && Exists(fs', JournalDir(dir))
    ensures var fs' := EnsureQuiltNotebook(fs, dir).value;
            !Exists(fs, TodosFile(dir)) ==> fs'[TodosFile(dir)] == File(InitialTodosJson)
  {
    var q := QuiltDir(dir);
    var j := JournalDir(dir);
    assert q[..|q|] == q;
    assert j[..|j|] == j;
    TodosNotAboveJournal(dir);
  }

  /** The todos file is not one of the directories leading to the journal directory. */
  lemma TodosNotAboveJournal(dir: Path)
    ensures TodosFile(dir) !in Prefixes(JournalDir(dir))
  {
    var t := TodosFile(dir);
    var j := JournalDir(dir);
    assert t[|t| - 1] != j[|j| - 1];
    forall k | 1 <= k <= |j| ensures j[..k] != t {
      if k == |j| {
        assert j[..k] == j;
      } else {
        assert |j[..k]| < |t|;
      }
    }
  }

  /** Initialising an initialised notebook changes nothing. */
  lemma EnsureQuiltNotebookIdempotent(fs: FileSystem, dir: Path)
    requires EnsureQuiltNotebook(fs, dir).Ok?
    ensures var fs' := EnsureQuiltNotebook(fs, dir).value;
            EnsureQuiltNotebook(fs', dir) == Ok(fs')
  {
    EnsureQuiltNotebookNonClobbering(fs, dir);
  }

  /** In a well-formed tree, an entry's ancestors exist: nothing is under a missing directory. */
  lemma AncestorExists(fs: FileSystem, d: Path, p: Path)
    requires WellFormed(fs) && d != [] && d < p
    ensures p in fs ==> d in fs
  {
    if p in fs {
      assert p[..|d|] == d;
    }
  }

  /** `mkdir -p .quilt` inside an existing directory of a well-formed tree succeeds. */
  lemma FreshQuiltDir(fs: FileSystem, dir: Path)
    requires WellFormed(fs) && IsDirectory(fs, dir)
    requires !Exists(fs, QuiltDir(dir))
    ensures MkdirAll(fs, QuiltDir(dir)).Ok?
  {
    var q := QuiltDir(dir);
    forall k | 1 <= k <= |q| ensures !IsFile(fs, q[..k]) {
      if k < |dir| {
        assert q[..k] == dir[..k];
        assert dir in fs;
      } else if k == |dir| {
        assert q[..k] == dir;
      } else {
        assert q[..k] == q;
      }
    }
  }

  /** After `.quilt` is made afresh, `todos.json` can be written and `journal` is still missing. */
  lemma FreshTodosFile(fs: FileSystem, dir: Path)
    requires WellFormed(fs) && IsDirectory(fs, dir)
    requires !Exists(fs, QuiltDir(dir))
    ensures MkdirAll(fs, QuiltDir(dir)).Ok?
    ensures var fs1 := MkdirAll(fs, QuiltDir(dir)).value;
            WriteFile(fs1, TodosFile(dir), InitialTodosJson).Ok?
            && !Exists(fs1, TodosFile(dir)) && !Exists(fs1, JournalDir(dir))
            && IsDirectory(fs1, QuiltDir(dir))
  {
    var q := QuiltDir(dir);
    var t := TodosFile(dir);
    var j := JournalDir(dir);
    FreshQuiltDir(fs, dir);
    var fs1 := MkdirAll(fs, q).value;
    assert q[..|q|] == q;
    AncestorExists(fs, q, t);
    AncestorExists(fs, q, j);
    assert t !in Prefixes(q) && j !in Prefixes(q);
    assert Dirname(t) == q;
  }

  /** With `.quilt` a directory and `journal` missing, `mkdir -p journal` succeeds after the write. */
  lemma FreshJournalDir(fs1: FileSystem, dir: Path)
    requires IsDirectory(fs1, QuiltDir(dir)) && !Exists(fs1, JournalDir(dir))
    requires forall k | 0 <= k <= |QuiltDir(dir)| :: IsDirectory(fs1, QuiltDir(dir)[..k])
    ensures var fs2 := fs1[TodosFile(dir) := File(InitialTodosJson)];
            MkdirAll(fs2, JournalDir(dir)).Ok?
  {
    var q := QuiltDir(dir);
    var t := TodosFile(dir);
    var j := JournalDir(dir);
    var fs2 := fs1[t := File(InitialTodosJson)];
    forall k | 1 <= k <= |j| ensures !IsFile(fs2, j[..k]) {
      if k < |j| {
        assert j[..k] == q[..k];
        assert |j[..k]| < |t|;
      } else {
        assert j[..k] == j;
        assert t[|t| - 1] != j[|j| - 1];
      }
    }
  }

  /** A directory with nothing of the notebook in it is initialised in full, and becomes a notebook. */
  lemma EnsureQuiltNotebookFresh(fs: FileSystem, dir: Path)
    requires WellFormed(fs) && IsDirectory(fs, dir)
    requires !Exists(fs, QuiltDir(dir))
    ensures EnsureQuiltNotebook(fs, dir).Ok?
    ensures IsQuiltNotebook(EnsureQuiltNotebook(fs, dir).value, dir)
    ensures var fs' := EnsureQuiltNotebook(fs, dir).value;
            fs'[TodosFile(dir)] == File(InitialTodosJson)
  {
    FreshTodosFile(fs, dir);
    var fs1 := MkdirAll(fs, QuiltDir(dir)).value;
    FreshJournalDir(fs1, dir);
    EnsureQuiltNotebookNonClobbering(fs, dir);
  }

  // Reading the stored todos

  /** The todos stored under `key` of a parsed JSON document: valid entries of a list, in order. */
  function TodosUnder(data: Value, key: string): Result<seq<Todo>>
  {
    var todo :- Get(data, key);
    Ok(if todo.Some? && todo.value.VList? then FilterMap(todo.value.items, DecodeTodo) else [])
  }

  /** `getTodos` reads the key `todo`. */
  function StoredTodos(data: Value): Result<seq<Todo>>
  {
    TodosUnder(data, "todo")
  }

  /** The key `ensureQuiltNotebook` writes, `todos`. */
  function StoredTodosFixed(data: Value): Result<seq<Todo>>
  {
    TodosUnder(data, "todos")
  }

  function TodosPath(config: AppConfig): Path
  {
    TodosFile(config.notebookDir)
  }

  /** `getTodos` as a value: read the file, parse it as JSON (`parseJson`), decode. */
  function TodosFromFile(fs: FileSystem, config: AppConfig, parseJson: string -> Result<Value>): Result<seq<Todo>>
  {
    var text :- ReadFile(fs, TodosPath(config));
    var data :- parseJson(text);
    StoredTodos(data)
  }

  /** `getTodos`: the valid entries of `data.todo`, pushed one by one; an invalid entry is skipped with a warning. */
  method GetTodos(fs: FileSystem, config: AppConfig, parseJson: string -> Result<Value>) returns (r: Result<seq<Todo>>)
    ensures r == TodosFromFile(fs, config, parseJson)
  {
    var text := ReadFile(fs, TodosPath(config));
    if text.Err? {
      return Err(text.error);
    }
    var data := parseJson(text.value);
    if data.Err? {
      return Err(data.error);
    }
    var todo := Get(data.value, "todo");
    if todo.Err? {
      return Err(todo.error);
    }
    if todo.value.None? || !todo.value.value.VList? {
      return Ok([]);
    }
    var items := todo.value.value.items;
    var result: seq<Todo> := [];
    var i := 0;
    while i < |items|
      invariant 0 <= i <= |items|
      invariant result == FilterMap(items[..i], DecodeTodo)
    {
      var parsed := DecodeTodo(items[i]);
      FilterMapConcat(items[..i], [items[i]], DecodeTodo);
      assert items[..i + 1] == items[..i] + [items[i]];
      if parsed.Some? {
        result := result + [parsed.value];
      }
      i := i + 1;
    }
    assert items[..i] == items;
    return Ok(result);
  }

  /** Stored todos are the entries that validate, in order; one invalid entry drops only itself. */
  lemma StoredTodosKeepsValid(before: seq<Value>, item: Value, after: seq<Value>)
    requires DecodeTodo(item).None?
    ensures StoredTodos(VMap(map["todo" := VList(before + [item] + after)]))
            == Ok(FilterMap(before, DecodeTodo) + FilterMap(after, DecodeTodo))
  {
    FilterMapConcat(before + [item], after, DecodeTodo);
    FilterMapConcat(before, [item], DecodeTodo);
    assert FilterMap([item], DecodeTodo) == [];
    assert FilterMap(before, DecodeTodo) + [] == FilterMap(before, DecodeTodo);
  }

  /** Todos written under `todos` are never read back: `getTodos` finds none. */
  lemma StoredTodosIgnoresWrittenKey(todos: seq<Todo>)
    ensures StoredTodos(VMap(map["todos" := VList(Encode(todos))])) == Ok([])
  {
    assert "todo" !in map["todos" := VList(Encode(todos))];
  }

  function Encode(todos: seq<Todo>): (vs: seq<Value>)
    ensures |vs| == |todos|
    ensures forall k | 0 <= k < |todos| :: vs[k] == EncodeTodo(todos[k])
  {
    if todos == [] then [] else [EncodeTodo(todos[0])] + Encode(todos[1..])
  }

  /** Reading the key that is written gives back exactly the todos stored there. */
  lemma StoredTodosFixedRoundTrip(todos: seq<Todo>)
    ensures StoredTodosFixed(VMap(map["todos" := VList(Encode(todos))])) == Ok(todos)
  {
    var vs := Encode(todos);
    forall k | 0 <= k < |vs| ensures DecodeTodo(vs[k]).Some? && DecodeTodo(vs[k]).value == todos[k] {
      DecodeEncodeTodo(todos[k]);
    }
    FilterMapAllPresent(vs, DecodeTodo);
    assert FilterMap(vs, DecodeTodo) == todos;
    var data := VMap(map["todos" := VList(vs)]);
    assert Get(data, "todos") == Ok(Some(VList(vs)));
  }

  /** The file `ensureQuiltNotebook` writes holds no todos under either key. */
  lemma InitialTodosEmpty()
    ensures StoredTodos(VMap(map["todos" := VList([])])) == Ok([])
    ensures StoredTodosFixed(VMap(map["todos" := VList([])])) == Ok([])
  {
    StoredTodosIgnoresWrittenKey([]);
    StoredTodosFixedRoundTrip([]);
  }
}
