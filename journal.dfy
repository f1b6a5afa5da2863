/**
 * The journal of `cmd/quilt-cli/Journal.ts`: one markdown note per calendar
 * day at `<notebook>/.quilt/journal/<yyyy-MM-dd>.md`, created from a
 * template on demand, loaded one day at a time or over an inclusive range of
 * days.
 *
 * Parsing a markdown document into its top-level nodes is the parameter
 * `parse`; `random` is the output of `crypto.randomUUID()`.
 */
module Journal {
  import opened Common
  import opened Seqs
  import opened Strings
  import opened CivilDates
  import opened Files
  import opened NoteCodec
  import opened CliMain

  /** `journalFilepathForDate`. */
  function JournalFilepathForDate(config: AppConfig, date: Instant): (p: Path)
    requires ValidDate(date.date)
    ensures |p| == |config.notebookDir| + 3 && config.notebookDir < p
    ensures Dirname(p) == JournalDir(config.notebookDir)
    ensures p[|p| - 1] == DayStamp(date.date) + ".md"
  {
    config.notebookDir + [".quilt", "journal", DayStamp(date.date) + ".md"]
  }

  /** The file depends on the calendar day only, and is the one the command line opens. */
  lemma SameDaySameFile(config: AppConfig, a: Instant, b: Instant)
    requires ValidDate(a.date) && ValidDate(b.date) && IsSameDay(a, b)
    ensures JournalFilepathForDate(config, a) == JournalFilepathForDate(config, b)
    ensures JournalFilepathForDate(config, a) == JournalEntryFilepath(config, b)
  {
  }

  /** Different days of the Christian era get different files. */
  lemma DifferentDaysDifferentFiles(config: AppConfig, a: Instant, b: Instant)
    requires ValidDate(a.date) && ValidDate(b.date) && a.date.year >= 1 && b.date.year >= 1
    requires JournalFilepathForDate(config, a) == JournalFilepathForDate(config, b)
    ensures IsSameDay(a, b)
  {
    var x, y := DayStamp(a.date), DayStamp(b.date);
    var p := JournalFilepathForDate(config, a);
    assert x + ".md" == y + ".md" == p[|p| - 1];
    assert |x| == |y|;
    assert x == (x + ".md")[..|x|] == (y + ".md")[..|y|] == y;
    DayStampInjective(a.date, b.date);
  }

  // One day

  /**
   * `getJournalEntryForDate`: no note when nothing is at the day's path,
   * otherwise the file read and decoded, with `createdAt` the requested date.
   */
  function GetJournalEntryForDate(fs: FileSystem, config: AppConfig, date: Instant, parse: string -> seq<MdNode>): (r: Result<Option<Note>>)
    requires ValidDate(date.date)
    ensures !Exists(fs, JournalFilepathForDate(config, date)) <==> r == Ok(None)
    ensures r.Ok? && r.value.Some? ==> var file := JournalFilepathForDate(config, date);
              IsFile(fs, file) && r.value.value.createdAt == date && r.value.value.content == fs[file].content
  {
    var file := JournalFilepathForDate(config, date);
    if !Exists(fs, file) then Ok(None)
    else
      var markdown :- ReadFile(fs, file);
      var note :- LoadNote(markdown, parse(markdown), date);
      Ok(Some(note))
  }

  /** `getJournalEntryForDate` as written, on top of `loadNoteFromFile` as written. */
  function GetJournalEntryForDateAsWritten(fs: FileSystem, config: AppConfig, date: Instant, parse: string -> seq<MdNode>): Result<Option<Note>>
    requires ValidDate(date.date)
  {
    var file := JournalFilepathForDate(config, date);
    if !Exists(fs, file) then Ok(None)
    else
      var markdown :- ReadFile(fs, file);
      var note :- LoadNoteAsWritten(markdown, parse(markdown));
      Ok(Some(note.(createdAt := date)))
  }

  /** As written, every existing journal entry fails to load; only missing days succeed, with null. */
  lemma AsWrittenLoadsNothing(fs: FileSystem, config: AppConfig, date: Instant, parse: string -> seq<MdNode>)
    requires ValidDate(date.date)
    ensures var r := GetJournalEntryForDateAsWritten(fs, config, date, parse);
            (r.Ok? <==> !Exists(fs, JournalFilepathForDate(config, date))) && (r.Ok? ==> r.value.None?)
  {
    var file := JournalFilepathForDate(config, date);
    if Exists(fs, file) && IsFile(fs, file) {
      var markdown := ReadFile(fs, file).value;
      LoadNoteAsWrittenAlwaysFails(markdown, parse(markdown));
    }
  }

  // Creating a day's entry

  /** The lines of the template after the date. */
  const FixedTail: seq<string> := ["todo:", "    # - this is an example todo", "---", "", ""]

  /** Front matter with id, title, date and an empty todo list, then a blank body. */
  function TemplateLines(id: string, title: string, date: string): seq<string>
  {
    ["---", "id: " + id, "title: " + title, "date: " + date] + FixedTail
  }

  /** The lines of a new journal entry. */
  function EntryTemplateLines(id: string, date: Instant): seq<string>
    requires ValidInstant(date)
  {
    TemplateLines(id, DayTitle(date.date), Split(IsoString(date), 'T')[0])
  }

  function EntryTemplate(id: string, date: Instant): string
    requires ValidInstant(date)
  {
    Join(EntryTemplateLines(id, date), "\n")
  }

  /**
   * The template reads back line by line; its date line holds the ISO date
   * only, which for years 1 to 9999 is the same text as the file name.
   */
  lemma EntryTemplateShape(id: string, date: Instant)
    requires ValidInstant(date)
    requires '\n' !in id
    ensures Split(EntryTemplate(id, date), '\n') == EntryTemplateLines(id, date)
    ensures EntryTemplateLines(id, date)[3] == "date: " + IsoDate(date.date)
    ensures 1 <= date.date.year <= 9999 ==> EntryTemplateLines(id, date)[3] == "date: " + DayStamp(date.date)
  {
    EntryTemplateIsTemplate(id, date);
    DayTitleOneLine(date.date);
    IsoStringOneLine(date);
    TemplateRoundTrip(id, DayTitle(date.date), IsoDate(date.date));
    if 1 <= date.date.year <= 9999 {
      IsoDateIsDayStamp(date.date);
    }
  }

  lemma EntryTemplateIsTemplate(id: string, date: Instant)
    requires ValidInstant(date)
    ensures EntryTemplateLines(id, date) == TemplateLines(id, DayTitle(date.date), IsoDate(date.date))
  {
    IsoStringDatePart(date);
  }

  /** Joined with line breaks and split again, the template lines come back. */
  lemma TemplateRoundTrip(id: string, title: string, date: string)
    requires '\n' !in id && '\n' !in title && '\n' !in date
    ensures Split(Join(TemplateLines(id, title, date), "\n"), '\n') == TemplateLines(id, title, date)
  {
    TemplateLinesOneLine(id, title, date);
    SplitJoin(TemplateLines(id, title, date), '\n');
  }

  /** No template line holds a line break when the id, title and date hold none. */
  lemma TemplateLinesOneLine(id: string, title: string, date: string)
    requires '\n' !in id && '\n' !in title && '\n' !in date
    ensures forall k | 0 <= k < |TemplateLines(id, title, date)| :: '\n' !in TemplateLines(id, title, date)[k]
  {
    var lines := TemplateLines(id, title, date);
    forall k | 0 <= k < |lines| ensures '\n' !in lines[k] {
      if k >= 4 {
        assert lines[k] == FixedTail[k - 4];
      }
    }
  }

  /**
   * `ensureJournalEntryForDate`: the day's path, after writing the template
   * there (creating the journal directory as needed) when nothing was there.
   */
  function EnsureJournalEntryForDate(fs: FileSystem, config: AppConfig, date: Instant, random: string): Result<(FileSystem, Path)>
    requires ValidInstant(date)
  {
    var file := JournalFilepathForDate(config, date);
    if Exists(fs, file) then Ok((fs, file))
    else
      var fs1 :- MkdirAll(fs, Dirname(file));
      var fs2 :- WriteFile(fs1, file, EntryTemplate(Uuid("note", random), date));
      Ok((fs2, file))
  }

  /**
   * The day's path is returned whether or not the file existed; an existing
   * entry is left as it is, and otherwise the template is the only new file.
   */
  lemma EnsureJournalEntryNonClobbering(fs: FileSystem, config: AppConfig, date: Instant, random: string)
    requires ValidInstant(date)
    ensures var r := EnsureJournalEntryForDate(fs, config, date, random);
            r.Ok? ==> r.value.1 == JournalFilepathForDate(config, date)
    ensures var file := JournalFilepathForDate(config, date);
            Exists(fs, file) ==> EnsureJournalEntryForDate(fs, config, date, random) == Ok((fs, file))
    ensures var file := JournalFilepathForDate(config, date);
            var r := EnsureJournalEntryForDate(fs, config, date, random);
            !Exists(fs, file) && r.Ok? ==>
              r.value.0[file] == File(EntryTemplate(Uuid("note", random), date))
              && (forall p | p in fs :: p in r.value.0 && r.value.0[p] == fs[p])
              && (forall p | p in r.value.0 && p !in fs :: p == file || p in Prefixes(Dirname(file)))
    ensures var file := JournalFilepathForDate(config, date);
            !Exists(fs, file) && !BlockedByFile(fs, Dirname(file)) ==> EnsureJournalEntryForDate(fs, config, date, random).Ok?
  {
    var file := JournalFilepathForDate(config, date);
    if !Exists(fs, file) && !BlockedByFile(fs, Dirname(file)) {
      MkdirThenWrite(fs, file, EntryTemplate(Uuid("note", random), date));
    }
  }

  /** A second call returns the same path and leaves the content written by the first. */
  lemma EnsureJournalEntryIdempotent(fs: FileSystem, config: AppConfig, date: Instant, random: string, random': string)
    requires ValidInstant(date)
    requires EnsureJournalEntryForDate(fs, config, date, random).Ok?
    ensures var (fs', file) := EnsureJournalEntryForDate(fs, config, date, random).value;
            EnsureJournalEntryForDate(fs', config, date, random') == Ok((fs', file))
  {
    EnsureJournalEntryNonClobbering(fs, config, date, random);
  }

  /** A created entry's id line is `id: note_` and the rest of the UUID. */
  lemma CreatedEntryId(date: Instant, random: string)
    requires ValidInstant(date)
    ensures "id: note_" <= EntryTemplateLines(Uuid("note", random), date)[1]
  {
    NoteIdLine(random, DayTitle(date.date), Split(IsoString(date), 'T')[0]);
  }

  lemma NoteIdLine(random: string, title: string, date: string)
    ensures "id: note_" <= TemplateLines(Uuid("note", random), title, date)[1]
  {
    var id := Uuid("note", random);
    assert TemplateLines(id, title, date)[1] == "id: " + id;
    assert "note" + "_" == "note_";
    PrefixExtends("id: ", "note_", id);
    assert "id: " + "note_" == "id: note_";
  }

  // A range of days

  const RangeErrorMessage: string := "end date cannot be before start date"

  /** The instants the loop visits: `date`, then one day later each time, while not after `end`. */
  function Walk(date: Instant, end: Instant): (days: seq<Instant>)
    requires ValidInstant(date) && ValidInstant(end)
    ensures forall k | 0 <= k < |days| :: ValidInstant(days[k])
    decreases Timestamp(end) - Timestamp(date)
  {
    if IsAfter(date, end) then [] else [date] + Walk(AddOneDay(date), end)
  }

  /** The notes found on `days`, in order; the first failing lookup is the result. */
  function CollectNotes(fs: FileSystem, config: AppConfig, parse: string -> seq<MdNode>, days: seq<Instant>): Result<seq<Note>>
    requires forall k | 0 <= k < |days| :: ValidInstant(days[k])
  {
    if days == [] then Ok([])
    else
      assert ValidInstant(days[0]);
      var note :- GetJournalEntryForDate(fs, config, days[0], parse);
      var rest :- CollectNotes(fs, config, parse, days[1..]);
      Ok(if note.Some? then [note.value] + rest else rest)
  }

  /** `getJournalEntriesInDateRange` as a value. */
  function EntriesInRange(fs: FileSystem, config: AppConfig, parse: string -> seq<MdNode>, start: Instant, end: Instant): Result<seq<Note>>
    requires ValidInstant(start) && ValidInstant(end)
  {
    var s := StartOfDay(start);
    var e := EndOfDay(end);
    if !IsSameDay(s, e) && IsAfter(s, e) then Err(RangeErrorMessage)
    else CollectNotes(fs, config, parse, Walk(s, e))
  }

  function Prepend(notes: seq<Note>, r: Result<seq<Note>>): Result<seq<Note>>
  {
    if r.Ok? then Ok(notes + r.value) else r
  }

  lemma PrependAssoc(a: seq<Note>, b: seq<Note>, r: Result<seq<Note>>)
    ensures Prepend(a, Prepend(b, r)) == Prepend(a + b, r)
  {
    if r.Ok? {
      assert a + (b + r.value) == (a + b) + r.value;
    }
  }

  /** One step of the walk: the day's lookup, then the rest of the walk. */
  lemma CollectNotesStep(fs: FileSystem, config: AppConfig, parse: string -> seq<MdNode>, date: Instant, end: Instant)
    requires ValidInstant(date) && ValidInstant(end) && !IsAfter(date, end)
    ensures var note := GetJournalEntryForDate(fs, config, date, parse);
            var rest := CollectNotes(fs, config, parse, Walk(AddOneDay(date), end));
            CollectNotes(fs, config, parse, Walk(date, end))
            == if note.Err? then Err(note.error)
               else Prepend(if note.value.Some? then [note.value.value] else [], rest)
  {
    var days := Walk(date, end);
    assert days[0] == date && days[1..] == Walk(AddOneDay(date), end);
    var rest := CollectNotes(fs, config, parse, Walk(AddOneDay(date), end));
    if rest.Ok? {
      assert [] + rest.value == rest.value;
    }
  }

  /** One turn of the loop below: a failed lookup ends the walk, a found note moves onto the list. */
  lemma RangeLoopStep(fs: FileSystem, config: AppConfig, parse: string -> seq<MdNode>, notes: seq<Note>, date: Instant, end: Instant)
    requires ValidInstant(date) && ValidInstant(end) && !IsAfter(date, end)
    ensures var note := GetJournalEntryForDate(fs, config, date, parse);
            note.Err? ==> Prepend(notes, CollectNotes(fs, config, parse, Walk(date, end))) == Err(note.error)
    ensures var note := GetJournalEntryForDate(fs, config, date, parse);
            note.Ok? && note.value.Some? ==>
              Prepend(notes, CollectNotes(fs, config, parse, Walk(date, end)))
              == Prepend(notes + [note.value.value], CollectNotes(fs, config, parse, Walk(AddOneDay(date), end)))
    ensures var note := GetJournalEntryForDate(fs, config, date, parse);
            note.Ok? && note.value.None? ==>
              Prepend(notes, CollectNotes(fs, config, parse, Walk(date, end)))
              == Prepend(notes, CollectNotes(fs, config, parse, Walk(AddOneDay(date), end)))
  {
    CollectNotesStep(fs, config, parse, date, end);
    PrependStep(notes, CollectNotes(fs, config, parse, Walk(date, end)), GetJournalEntryForDate(fs, config, date, parse),
                CollectNotes(fs, config, parse, Walk(AddOneDay(date), end)));
  }

  /** `RangeLoopStep` on the values involved: the walk's result is the day's lookup followed by the rest. */
  lemma PrependStep(notes: seq<Note>, whole: Result<seq<Note>>, note: Result<Option<Note>>, rest: Result<seq<Note>>)
    requires whole == if note.Err? then Err(note.error) else Prepend(if note.value.Some? then [note.value.value] else [], rest)
    ensures note.Err? ==> Prepend(notes, whole) == Err(note.error)
    ensures note.Ok? && note.value.Some? ==> Prepend(notes, whole) == Prepend(notes + [note.value.value], rest)
    ensures note.Ok? && note.value.None? ==> Prepend(notes, whole) == Prepend(notes, rest)
  {
    if note.Ok? && note.value.Some? {
      PrependAssoc(notes, [note.value.value], rest);
    } else if note.Ok? {
      PrependAssoc(notes, [], rest);
      assert notes + [] == notes;
    }
  }

  /** `getJournalEntriesInDateRange`: walks the days from the start's to the end's, pushing each note found. */
  method GetJournalEntriesInDateRange(fs: FileSystem, config: AppConfig, start: Instant, end: Instant, parse: string -> seq<MdNode>)
    returns (r: Result<seq<Note>>)
    requires ValidInstant(start) && ValidInstant(end)
    ensures r == EntriesInRange(fs, config, parse, start, end)
  {
    var s := StartOfDay(start);
    var e := EndOfDay(end);
    if !IsSameDay(s, e) && IsAfter(s, e) {
      return Err(RangeErrorMessage);
    }
    var notes: seq<Note> := [];
    var date := s;
    assert Prepend(notes, CollectNotes(fs, config, parse, Walk(s, e))) == CollectNotes(fs, config, parse, Walk(s, e)) by {
      var all := CollectNotes(fs, config, parse, Walk(s, e));
      if all.Ok? {
        assert [] + all.value == all.value;
      }
    }
    while !IsAfter(date, e)
      invariant ValidInstant(date)
      invariant CollectNotes(fs, config, parse, Walk(s, e)) == Prepend(notes, CollectNotes(fs, config, parse, Walk(date, e)))
      decreases Timestamp(e) - Timestamp(date)
    {
      var note := GetJournalEntryForDate(fs, config, date, parse);
      RangeLoopStep(fs, config, parse, notes, date, e);
      if note.Err? {
        return Err(note.error);
      }
      if note.value.Some? {
        notes := notes + [note.value.value];
      }
      date := AddOneDay(date);
    }
    assert Walk(date, e) == [];
    assert notes + [] == notes;
    return Ok(notes);
  }

  /** The walk checks every day from the first to the last exactly once, one day apart, in order. */
  lemma {:induction false} WalkDays(date: Instant, end: Instant)
    requires ValidInstant(date) && ValidInstant(end) && date.ms <= end.ms
    ensures var days := Walk(date, end);
            |days| == (if DayNumber(date.date) <= DayNumber(end.date) then DayNumber(end.date) - DayNumber(date.date) + 1 else 0)
    ensures var days := Walk(date, end);
            forall k | 0 <= k < |days| :: days[k].ms == date.ms && DayNumber(days[k].date) == DayNumber(date.date) + k
    decreases Timestamp(end) - Timestamp(date)
  {
    var x, y := DayNumber(date.date), DayNumber(end.date);
    if x <= y {
      assert x * MsPerDay <= y * MsPerDay;
      assert !IsAfter(date, end);
      WalkDays(AddOneDay(date), end);
      var days := Walk(date, end);
      assert days[1..] == Walk(AddOneDay(date), end);
      assert forall k | 1 <= k < |days| :: days[k] == days[1..][k - 1];
    } else {
      assert x * MsPerDay >= (y + 1) * MsPerDay;
      assert IsAfter(date, end);
    }
  }

  /** Strictly ascending calendar days. */
  predicate Ascending(days: seq<Instant>)
  {
    forall i, j | 0 <= i < j < |days| ::
      ValidInstant(days[i]) && ValidInstant(days[j]) && DayNumber(days[i].date) < DayNumber(days[j].date)
  }

  /** Picking some of a list of ascending days keeps them ascending. */
  lemma {:induction false} SubsequenceAscending(a: seq<Instant>, b: seq<Instant>)
    requires IsSubsequence(a, b) && Ascending(b)
    ensures Ascending(a)
    decreases |b|
  {
    if b != [] {
      if a != [] && a[0] == b[0] && IsSubsequence(a[1..], b[1..]) {
        SubsequenceAscending(a[1..], b[1..]);
        SubsequenceMembers(a[1..], b[1..]);
        forall j | 1 <= j < |a|
          ensures ValidInstant(a[j]) && DayNumber(a[0].date) < DayNumber(a[j].date)
        {
          assert a[j] == a[1..][j - 1];
          assert a[1..][j - 1] in a[1..];
          var i :| 0 <= i < |b[1..]| && b[1..][i] == a[j];
          assert b[i + 1] == a[j];
        }
        if |a| >= 2 {
          assert a[1] == a[1..][0];
        }
        forall i, j | 0 <= i < j < |a|
          ensures ValidInstant(a[i]) && ValidInstant(a[j]) && DayNumber(a[i].date) < DayNumber(a[j].date)
        {
          if i > 0 {
            assert a[i] == a[1..][i - 1] && a[j] == a[1..][j - 1];
          }
        }
      } else {
        SubsequenceAscending(a, b[1..]);
      }
    }
  }

  function CreatedDays(notes: seq<Note>): (days: seq<Instant>)
    ensures |days| == |notes|
    ensures forall k | 0 <= k < |notes| :: days[k] == notes[k].createdAt
  {
    if notes == [] then [] else [notes[0].createdAt] + CreatedDays(notes[1..])
  }

  /** A successful collection is the first day's note, if any, followed by the rest. */
  lemma CollectNotesCons(fs: FileSystem, config: AppConfig, parse: string -> seq<MdNode>, days: seq<Instant>)
    requires forall k | 0 <= k < |days| :: ValidInstant(days[k])
    requires days != [] && CollectNotes(fs, config, parse, days).Ok?
    ensures ValidInstant(days[0])
    ensures forall k | 0 <= k < |days[1..]| :: ValidInstant(days[1..][k])
    ensures GetJournalEntryForDate(fs, config, days[0], parse).Ok?
    ensures CollectNotes(fs, config, parse, days[1..]).Ok?
    ensures var note := GetJournalEntryForDate(fs, config, days[0], parse).value;
            CollectNotes(fs, config, parse, days).value
            == (if note.Some? then [note.value] else []) + CollectNotes(fs, config, parse, days[1..]).value
  {
    assert ValidInstant(days[0]);
    forall k | 0 <= k < |days[1..]| ensures ValidInstant(days[1..][k]) {
      assert days[1..][k] == days[k + 1];
    }
    var tail := CollectNotes(fs, config, parse, days[1..]).value;
    assert [] + tail == tail;
  }

  /** The notes found are for some of the days, in the order of the days. */
  lemma {:induction false} CollectNotesInOrder(fs: FileSystem, config: AppConfig, parse: string -> seq<MdNode>, days: seq<Instant>)
    requires forall k | 0 <= k < |days| :: ValidInstant(days[k])
    ensures var r := CollectNotes(fs, config, parse, days);
            r.Ok? ==> IsSubsequence(CreatedDays(r.value), days)
  {
    var r := CollectNotes(fs, config, parse, days);
    if days != [] && r.Ok? {
      CollectNotesCons(fs, config, parse, days);
      CollectNotesInOrder(fs, config, parse, days[1..]);
      var note := GetJournalEntryForDate(fs, config, days[0], parse).value;
      var tail := CollectNotes(fs, config, parse, days[1..]).value;
      if note.Some? {
        var cd := CreatedDays(r.value);
        assert cd[0] == days[0] && cd[1..] == CreatedDays(tail);
      } else {
        assert r.value == tail;
      }
    }
  }

  /** Every note found is for a day whose journal file exists. */
  lemma {:induction false} CollectNotesFromFiles(fs: FileSystem, config: AppConfig, parse: string -> seq<MdNode>, days: seq<Instant>)
    requires forall k | 0 <= k < |days| :: ValidInstant(days[k])
    ensures var r := CollectNotes(fs, config, parse, days);
            r.Ok? ==> forall k | 0 <= k < |r.value| :: ValidInstant(r.value[k].createdAt)
                        && IsFile(fs, JournalFilepathForDate(config, r.value[k].createdAt))
  {
    var r := CollectNotes(fs, config, parse, days);
    if days != [] && r.Ok? {
      CollectNotesCons(fs, config, parse, days);
      CollectNotesFromFiles(fs, config, parse, days[1..]);
      var note := GetJournalEntryForDate(fs, config, days[0], parse).value;
      var tail := CollectNotes(fs, config, parse, days[1..]).value;
      AllFromFiles(fs, config, r.value, note, tail);
    }
  }

  lemma AllFromFiles(fs: FileSystem, config: AppConfig, r: seq<Note>, note: Option<Note>, tail: seq<Note>)
    requires r == (if note.Some? then [note.value] else []) + tail
    requires note.Some? ==> ValidInstant(note.value.createdAt) && IsFile(fs, JournalFilepathForDate(config, note.value.createdAt))
    requires forall k | 0 <= k < |tail| :: ValidInstant(tail[k].createdAt)
               && IsFile(fs, JournalFilepathForDate(config, tail[k].createdAt))
    ensures forall k | 0 <= k < |r| :: ValidInstant(r[k].createdAt)
              && IsFile(fs, JournalFilepathForDate(config, r[k].createdAt))
  {
    if note.Some? {
      forall k | 1 <= k < |r|
        ensures ValidInstant(r[k].createdAt) && IsFile(fs, JournalFilepathForDate(config, r[k].createdAt))
      {
        ConsIndex(note.value, tail, k - 1);
      }
    } else {
      assert r == tail;
    }
  }

  /** Every day of the list whose file exists contributes its note. */
  lemma {:induction false} CollectNotesComplete(fs: FileSystem, config: AppConfig, parse: string -> seq<MdNode>, days: seq<Instant>, d: Instant)
    requires forall k | 0 <= k < |days| :: ValidInstant(days[k])
    requires ValidInstant(d) && d in days && Exists(fs, JournalFilepathForDate(config, d))
    requires CollectNotes(fs, config, parse, days).Ok?
    ensures exists k | 0 <= k < |CollectNotes(fs, config, parse, days).value| :: CollectNotes(fs, config, parse, days).value[k].createdAt == d
  {
    CollectNotesCons(fs, config, parse, days);
    var r := CollectNotes(fs, config, parse, days).value;
    var note := GetJournalEntryForDate(fs, config, days[0], parse).value;
    var tail := CollectNotes(fs, config, parse, days[1..]).value;
    if d == days[0] {
      FoundAtHead(r, note, tail, d);
    } else {
      InTail(days, d);
      CollectNotesComplete(fs, config, parse, days[1..], d);
      FoundInTail(r, note, tail, d);
    }
  }

  lemma FoundAtHead(r: seq<Note>, note: Option<Note>, tail: seq<Note>, d: Instant)
    requires r == (if note.Some? then [note.value] else []) + tail
    requires note.Some? && note.value.createdAt == d
    ensures exists k | 0 <= k < |r| :: r[k].createdAt == d
  {
    assert r[0].createdAt == d;
  }

  lemma FoundInTail(r: seq<Note>, note: Option<Note>, tail: seq<Note>, d: Instant)
    requires r == (if note.Some? then [note.value] else []) + tail
    requires exists k | 0 <= k < |tail| :: tail[k].createdAt == d
    ensures exists k | 0 <= k < |r| :: r[k].createdAt == d
  {
    var k :| 0 <= k < |tail| && tail[k].createdAt == d;
    if note.Some? {
      ConsIndex(note.value, tail, k);
    } else {
      assert r == tail;
    }
  }

  /**
   * An end day before the start day is rejected, whatever the file system
   * holds; otherwise the notes are those found over the walk, which checks
   * each day of the range once.
   */
  lemma RangeRejected(fs: FileSystem, config: AppConfig, parse: string -> seq<MdNode>, start: Instant, end: Instant)
    requires ValidInstant(start) && ValidInstant(end)
    ensures DayNumber(start.date) > DayNumber(end.date) ==> EntriesInRange(fs, config, parse, start, end) == Err(RangeErrorMessage)
    ensures DayNumber(start.date) <= DayNumber(end.date) ==>
              var days := Walk(StartOfDay(start), EndOfDay(end));
              EntriesInRange(fs, config, parse, start, end) == CollectNotes(fs, config, parse, days)
              && |days| == DayNumber(end.date) - DayNumber(start.date) + 1
  {
    StartAfterEnd(start, end);
    WalkDays(StartOfDay(start), EndOfDay(end));
  }

  /**
   * The notes of a valid range are in ascending order of day, each for a day
   * of the range whose file exists, and every such day has its note.
   */
  lemma RangeNotes(fs: FileSystem, config: AppConfig, parse: string -> seq<MdNode>, start: Instant, end: Instant)
    requires ValidInstant(start) && ValidInstant(end)
    requires EntriesInRange(fs, config, parse, start, end).Ok?
    ensures var notes := EntriesInRange(fs, config, parse, start, end).value;
            forall k | 0 <= k < |notes| :: ValidInstant(notes[k].createdAt)
              && DayNumber(start.date) <= DayNumber(notes[k].createdAt.date) <= DayNumber(end.date)
              && notes[k].createdAt.ms == 0
              && IsFile(fs, JournalFilepathForDate(config, notes[k].createdAt))
    ensures Ascending(CreatedDays(EntriesInRange(fs, config, parse, start, end).value))
  {
    var s, e := StartOfDay(start), EndOfDay(end);
    var days := Walk(s, e);
    WalkWithin(start, end);
    StartAfterEnd(start, end);
    CollectNotesInOrder(fs, config, parse, days);
    CollectNotesFromFiles(fs, config, parse, days);
    var notes := CollectNotes(fs, config, parse, days).value;
    SubsequenceAscending(CreatedDays(notes), days);
    SubsequenceMembers(CreatedDays(notes), days);
    NotesWithinDays(notes, days, DayNumber(start.date), DayNumber(end.date));
  }

  /** The walk of a range visits midnights of days within the range, in ascending order. */
  lemma WalkWithin(start: Instant, end: Instant)
    requires ValidInstant(start) && ValidInstant(end)
    ensures var days := Walk(StartOfDay(start), EndOfDay(end));
            Ascending(days)
            && forall k | 0 <= k < |days| :: ValidInstant(days[k]) && days[k].ms == 0
                 && DayNumber(start.date) <= DayNumber(days[k].date) <= DayNumber(end.date)
  {
    WalkDays(StartOfDay(start), EndOfDay(end));
  }

  lemma NotesWithinDays(notes: seq<Note>, days: seq<Instant>, lo: int, hi: int)
    requires forall x | x in CreatedDays(notes) :: x in days
    requires forall k | 0 <= k < |days| :: ValidInstant(days[k]) && days[k].ms == 0 && lo <= DayNumber(days[k].date) <= hi
    ensures forall k | 0 <= k < |notes| ::
              ValidInstant(notes[k].createdAt) && lo <= DayNumber(notes[k].createdAt.date) <= hi && notes[k].createdAt.ms == 0
  {
    forall k | 0 <= k < |notes|
      ensures ValidInstant(notes[k].createdAt) && lo <= DayNumber(notes[k].createdAt.date) <= hi && notes[k].createdAt.ms == 0
    {
      assert CreatedDays(notes)[k] in days;
    }
  }

  /** Every day of a valid range whose journal file exists has its note in the result. */
  lemma RangeComplete(fs: FileSystem, config: AppConfig, parse: string -> seq<MdNode>, start: Instant, end: Instant, d: Instant)
    requires ValidInstant(start) && ValidInstant(end)
    requires EntriesInRange(fs, config, parse, start, end).Ok?
    requires ValidDate(d.date) && d.ms == 0
    requires DayNumber(start.date) <= DayNumber(d.date) <= DayNumber(end.date)
    requires Exists(fs, JournalFilepathForDate(config, d))
    ensures var notes := EntriesInRange(fs, config, parse, start, end).value;
            exists k | 0 <= k < |notes| :: notes[k].createdAt == d
  {
    var s, e := StartOfDay(start), EndOfDay(end);
    var days := Walk(s, e);
    WalkDays(s, e);
    StartAfterEnd(start, end);
    var i := DayNumber(d.date) - DayNumber(start.date);
    DayNumberInjective(days[i].date, d.date);
    assert days[i] == d;
    CollectNotesComplete(fs, config, parse, days, d);
  }

  /** A one-day range yields at most one note. */
  lemma SameDayAtMostOne(fs: FileSystem, config: AppConfig, parse: string -> seq<MdNode>, start: Instant, end: Instant)
    requires ValidInstant(start) && ValidInstant(end) && IsSameDay(start, end)
    requires EntriesInRange(fs, config, parse, start, end).Ok?
    ensures |EntriesInRange(fs, config, parse, start, end).value| <= 1
  {
    var s, e := StartOfDay(start), EndOfDay(end);
    WalkDays(s, e);
    CollectNotesLength(fs, config, parse, Walk(s, e));
  }

  lemma {:induction false} CollectNotesLength(fs: FileSystem, config: AppConfig, parse: string -> seq<MdNode>, days: seq<Instant>)
    requires forall k | 0 <= k < |days| :: ValidInstant(days[k])
    ensures var r := CollectNotes(fs, config, parse, days);
            r.Ok? ==> |r.value| <= |days|
  {
    if days != [] {
      CollectNotesLength(fs, config, parse, days[1..]);
    }
  }
}
