/**
 * Decoding a note file (`cmd/quilt-cli/Note.ts`): the front matter is the
 * parsed YAML of the document's first child when that child is a yaml node,
 * and the note is validated against the zod schemas `Todo` and `Note`.
 *
 * Markdown and YAML parsing are done by foreign libraries; a document is
 * given here as the list of its top-level nodes, a yaml node carrying the
 * outcome of parsing its text.
 */
module NoteCodec {
  import opened Common
  import opened Seqs
  import opened CivilDates

  /** A parsed YAML or JSON value; `VDate` is a JavaScript `Date` object. */
  datatype Value =
    | VString(str: string)
    | VNumber(num: int)
    | VBool(truth: bool)
    | VNull
    | VList(items: seq<Value>)
    | VMap(fields: map<string, Value>)
    | VDate(at: Instant)

  /** `TypeError` raised when reading a property of `null`. */
  const NullPropertyMessage: string := "cannot read properties of null"

  /**
   * `v[key]` on a value that is not null, for a key that is not an array
   * index: an object's own field, and `undefined` (None) on any other value.
   */
  function Field(v: Value, key: string): (r: Option<Value>)
    ensures r.Some? <==> v.VMap? && key in v.fields
    ensures r.Some? ==> r.value == v.fields[key]
  {
    if v.VMap? && key in v.fields then Some(v.fields[key]) else None
  }

  /** `v[key]`, where reading a property of null is a TypeError. */
  function Get(v: Value, key: string): (r: Result<Option<Value>>)
    ensures r.Err? <==> v.VNull?
    ensures r.Ok? ==> r.value == Field(v, key)
  {
    if v.VNull? then Err(NullPropertyMessage) else Ok(Field(v, key))
  }

  /** A top-level node of a parsed markdown document. */
  datatype MdNode = YamlNode(parsed: Result<Value>) | OtherNode

  /** `parseMarkdown`'s front matter: the first child's YAML when it is a yaml node, else `{}`. */
  function FrontMatter(children: seq<MdNode>): (r: Result<Value>)
    ensures |children| >= 1 && children[0].YamlNode? ==> r == children[0].parsed
    ensures (|children| == 0 || children[0].OtherNode?) ==> r == Ok(VMap(map[]))
  {
    if |children| >= 1 && children[0].YamlNode? then children[0].parsed else Ok(VMap(map[]))
  }

  // The Todo schema

  datatype Todo = Todo(id: string, title: string, notes: Option<string>, repeat: Option<string>)

  /** `z.string()` on a field that must be present. */
  predicate StringField(fields: map<string, Value>, key: string)
  {
    key in fields && fields[key].VString?
  }

  /** `z.string().optional()`: absent or a string. */
  predicate OptionalStringField(fields: map<string, Value>, key: string)
  {
    key !in fields || fields[key].VString?
  }

  function OptionalString(fields: map<string, Value>, key: string): Option<string>
    requires OptionalStringField(fields, key)
  {
    if key in fields then Some(fields[key].str) else None
  }

  /** `Todo.safeParse(v)`: an object with string `id` and `title` and optional string `notes` and `repeat`; other fields are dropped. */
  function DecodeTodo(v: Value): (r: Option<Todo>)
    ensures r.Some? <==> v.VMap? && StringField(v.fields, "id") && StringField(v.fields, "title")
                         && OptionalStringField(v.fields, "notes") && OptionalStringField(v.fields, "repeat")
  {
    match v
    case VMap(f) =>
      if StringField(f, "id") && StringField(f, "title")
         && OptionalStringField(f, "notes") && OptionalStringField(f, "repeat")
      then Some(Todo(f["id"].str, f["title"].str, OptionalString(f, "notes"), OptionalString(f, "repeat")))
      else None
    case _ => None
  }

  /** The object a todo is stored as: only the optional fields that are set appear. */
  function EncodeTodo(t: Todo): (v: Value)
    ensures v.VMap? && "id" in v.fields && "title" in v.fields
    ensures v.fields["id"] == VString(t.id) && v.fields["title"] == VString(t.title)
  {
    var base := map["id" := VString(t.id), "title" := VString(t.title)];
    var withNotes := if t.notes.Some? then base["notes" := VString(t.notes.value)] else base;
    VMap(if t.repeat.Some? then withNotes["repeat" := VString(t.repeat.value)] else withNotes)
  }

  /** Decoding undoes encoding: the Todo schema loses nothing a todo holds. */
  lemma DecodeEncodeTodo(t: Todo)
    ensures DecodeTodo(EncodeTodo(t)) == Some(t)
  {
    var f := EncodeTodo(t).fields;
    assert "notes" in f <==> t.notes.Some?;
    assert "repeat" in f <==> t.repeat.Some?;
  }

  /** A front-matter `todo` entry, validated as `{id: "", title: item}`. */
  function NoteTodo(item: Value): (r: Option<Todo>)
  {
    DecodeTodo(VMap(map["id" := VString(""), "title" := item]))
  }

  /** An entry becomes a todo exactly when it is a string, and then it is the title with an empty id. */
  lemma NoteTodoIff(item: Value)
    ensures NoteTodo(item).Some? <==> item.VString?
    ensures item.VString? ==> NoteTodo(item) == Some(Todo("", item.str, None, None))
  {
    var f := map["id" := VString(""), "title" := item];
    assert "notes" !in f && "repeat" !in f;
  }

  /** The todos of a front matter whose `todo` value is `field` (absent is `undefined`). */
  function TodoList(field: Option<Value>): seq<Todo>
  {
    if field.Some? && field.value.VList? then FilterMap(field.value.items, NoteTodo) else []
  }

  /** The loop of `loadNoteFromFile`: each entry that validates is pushed, in order. */
  method CollectTodos(items: seq<Value>) returns (todos: seq<Todo>)
    ensures todos == FilterMap(items, NoteTodo)
  {
    todos := [];
    var i := 0;
    while i < |items|
      invariant 0 <= i <= |items|
      invariant todos == FilterMap(items[..i], NoteTodo)
    {
      var parsed := NoteTodo(items[i]);
      FilterMapConcat(items[..i], [items[i]], NoteTodo);
      assert items[..i + 1] == items[..i] + [items[i]];
      if parsed.Some? {
        todos := todos + [parsed.value];
      }
      i := i + 1;
    }
    assert items[..i] == items;
  }

  /** When every entry is a string, each becomes a todo titled by it, in list order. */
  lemma StringEntriesBecomeTodos(items: seq<Value>)
    requires forall k | 0 <= k < |items| :: items[k].VString?
    ensures |FilterMap(items, NoteTodo)| == |items|
    ensures forall k | 0 <= k < |items| :: FilterMap(items, NoteTodo)[k] == Todo("", items[k].str, None, None)
  {
    forall k | 0 <= k < |items|
      ensures NoteTodo(items[k]).Some? && NoteTodo(items[k]).value == Todo("", items[k].str, None, None)
    {
      NoteTodoIff(items[k]);
    }
    FilterMapAllPresent(items, NoteTodo);
  }

  /** A non-string entry is skipped and the entries around it are kept. */
  lemma NonStringEntrySkipped(before: seq<Value>, item: Value, after: seq<Value>)
    requires !item.VString?
    ensures FilterMap(before + [item] + after, NoteTodo) == FilterMap(before, NoteTodo) + FilterMap(after, NoteTodo)
  {
    NoteTodoIff(item);
    FilterMapConcat(before + [item], after, NoteTodo);
    FilterMapConcat(before, [item], NoteTodo);
    assert FilterMap([item], NoteTodo) == [];
    assert FilterMap(before, NoteTodo) + [] == FilterMap(before, NoteTodo);
  }

  /** Every collected todo has an empty id and the title of some string entry. */
  lemma CollectedTodoSource(items: seq<Value>, t: Todo)
    requires t in FilterMap(items, NoteTodo)
    ensures t.id == "" && t.notes.None? && t.repeat.None?
    ensures exists k | 0 <= k < |items| :: items[k] == VString(t.title)
  {
    FilterMapSource(items, NoteTodo, t);
    var k :| 0 <= k < |items| && NoteTodo(items[k]) == Some(t);
    NoteTodoIff(items[k]);
  }

  // The Note schema

  datatype Note = Note(id: string, createdAt: Instant, title: string, content: string, todos: seq<Todo>)

  /** The message of the `ZodError` a failed `Note.parse` throws (its issue list is not modelled). */
  const InvalidNoteMessage: string := "invalid note"

  /** `Note.parse({id, title, createdAt, content, todos})`: `id` and `title` strings, `createdAt` a `Date`. */
  function ParseNote(id: Option<Value>, title: Option<Value>, createdAt: Value, content: string, todos: seq<Todo>): (r: Result<Note>)
    ensures r.Ok? <==> id.Some? && id.value.VString? && title.Some? && title.value.VString? && createdAt.VDate?
    ensures r.Err? ==> r.error == InvalidNoteMessage
  {
    if id.Some? && id.value.VString? && title.Some? && title.value.VString? && createdAt.VDate?
    then Ok(Note(id.value.str, createdAt.at, title.value.str, content, todos))
    else Err(InvalidNoteMessage)
  }

  /** `loadNoteFromFile` after the read, as written: `createdAt` is passed as `null`. */
  function LoadNoteAsWritten(markdown: string, children: seq<MdNode>): Result<Note>
  {
    var fm :- FrontMatter(children);
    var todo :- Get(fm, "todo");
    ParseNote(Field(fm, "id"), Field(fm, "title"), VNull, markdown, TodoList(todo))
  }

  /** As written, no document loads: `null` never passes `z.date()`. */
  lemma LoadNoteAsWrittenAlwaysFails(markdown: string, children: seq<MdNode>)
    ensures LoadNoteAsWritten(markdown, children).Err?
  {
  }

  /**
   * `loadNoteFromFile` with `createdAt` supplied: the date the caller
   * (`getJournalEntryForDate`) assigns to the loaded note.
   */
  function LoadNote(markdown: string, children: seq<MdNode>, createdAt: Instant): (r: Result<Note>)
    ensures r.Ok? ==> r.value.createdAt == createdAt && r.value.content == markdown
  {
    var fm :- FrontMatter(children);
    var todo :- Get(fm, "todo");
    ParseNote(Field(fm, "id"), Field(fm, "title"), VDate(createdAt), markdown, TodoList(todo))
  }

  /**
   * A note loads exactly when its front matter is an object with string `id`
   * and `title`; it then keeps the raw markdown as content, the given
   * creation date, and the string entries of a `todo` list as todos.
   */
  lemma LoadNoteAccepts(markdown: string, children: seq<MdNode>, createdAt: Instant)
    ensures var r := LoadNote(markdown, children, createdAt);
            r.Ok? <==> FrontMatter(children).Ok? && FrontMatter(children).value.VMap?
                       && StringField(FrontMatter(children).value.fields, "id")
                       && StringField(FrontMatter(children).value.fields, "title")
    ensures var r := LoadNote(markdown, children, createdAt);
            r.Ok? ==> var f := FrontMatter(children).value.fields;
                      r.value == Note(f["id"].str, createdAt, f["title"].str, markdown,
                                      TodoList(if "todo" in f then Some(f["todo"]) else None))
  {
  }

  /** Without a leading yaml node the front matter is empty and the note is rejected. */
  lemma NoFrontMatterRejected(markdown: string, children: seq<MdNode>, createdAt: Instant)
    requires |children| == 0 || children[0].OtherNode?
    ensures LoadNote(markdown, children, createdAt) == Err(InvalidNoteMessage)
  {
  }

  /** Only the first child counts: a yaml node after other content is ignored. */
  lemma LaterYamlIgnored(markdown: string, first: MdNode, rest: seq<MdNode>, createdAt: Instant)
    requires first.OtherNode?
    ensures LoadNote(markdown, [first] + rest, createdAt) == Err(InvalidNoteMessage)
  {
  }

  /** A `todo` value that is not a list (absent, `null`, a string, a map) gives no todos. */
  lemma NonListTodoIsEmpty(field: Option<Value>)
    requires field.None? || !field.value.VList?
    ensures TodoList(field) == []
  {
  }
}
