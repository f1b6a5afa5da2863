/**
 * The todo-literal scanner of `pkg/parser/Parser.ts`: `"<text>" +tag +tag`.
 *
 * A single cursor moves left to right. At top level a space is skipped, a
 * double quote opens a text segment that runs to the next double quote (an
 * unclosed one is the only error), and a plus opens a tag whose name runs to
 * the next space or the end of the input. The source has no case for any
 * other top-level character: its loop then never advances, so the scanner is
 * only defined on inputs that never reach one (`Progresses`).
 *
 * `Scan`, the loop of `Step`s over the cursor, is the specification;
 * `ParseTodoLiteral` is the imperative scanner proved to compute it.
 */
module TodoParser {
  import opened Common
  import opened Seqs

  datatype Tag = Tag(name: string)

  datatype TodoLiteral = TodoLiteral(text: string, tags: seq<Tag>)

  /** How the scan ends: a literal, the unterminated-quote error, or the top-level loop stuck. */
  datatype Outcome = Scanned(todo: TodoLiteral) | Unterminated | Stuck

  const EmptyTodo: TodoLiteral := TodoLiteral("", [])

  const UnterminatedMessage: string := "unterminated text literal"

  /** Index of the first `c` at or after `i`, or `|s|`: where a text or a tag ends. */
  function EndOf(s: string, i: nat, c: char): (e: nat)
    requires i <= |s|
    ensures i <= e <= |s|
    ensures e < |s| ==> s[e] == c
    decreases |s| - i
  {
    if i == |s| || s[i] == c then i else EndOf(s, i + 1, c)
  }

  /** What one turn of the top-level loop does: move the cursor forward, or end the scan. */
  datatype Move = Advance(next: nat, todo: TodoLiteral) | Halt(outcome: Outcome)

  /** One turn of the top-level loop with the cursor at `c` and `todo` built so far. */
  function Step(s: string, c: nat, todo: TodoLiteral): (m: Move)
    requires c <= |s|
    ensures m.Advance? ==> c < m.next <= |s|
  {
    if c == |s| then Halt(Scanned(todo))
    else if s[c] == ' ' then Advance(c + 1, todo)
    else if s[c] == '"' then
      var e := EndOf(s, c + 1, '"');
      if e == |s| then Halt(Unterminated) else Advance(e + 1, todo.(text := s[c + 1..e]))
    else if s[c] == '+' then
      var e := EndOf(s, c + 1, ' ');
      Advance(if e < |s| then e + 1 else |s|, todo.(tags := todo.tags + [Tag(s[c + 1..e])]))
    else Halt(Stuck)
  }

  /** The top-level loop run to its end from cursor `c`. */
  function Scan(s: string, c: nat, todo: TodoLiteral): Outcome
    requires c <= |s|
    decreases |s| - c
  {
    match Step(s, c, todo)
    case Advance(next, todo') => Scan(s, next, todo')
    case Halt(outcome) => outcome
  }

  function Parse(s: string): Outcome
  {
    Scan(s, 0, EmptyTodo)
  }

  /** The source's top-level loop terminates on `s`. */
  predicate Progresses(s: string)
  {
    !Parse(s).Stuck?
  }

  /** `parseText`: from the opening quote at `start`, the text up to the closing quote. */
  method ParseText(input: string, start: nat) returns (r: Result<(string, nat)>)
    requires start < |input| && input[start] == '"'
    ensures r.Ok? ==> var (text, next) := r.value;
                      start + 1 < next <= |input| && input[next - 1] == '"'
                      && text == input[start + 1..next - 1] && '"' !in text
    ensures r.Err? ==> r.error == UnterminatedMessage
                       && forall k | start < k < |input| :: input[k] != '"'
    ensures r.Ok? <==> EndOf(input, start + 1, '"') < |input|
    ensures r.Ok? ==> r.value.1 == EndOf(input, start + 1, '"') + 1
  {
    var cursor := start + 1;
    var text := "";
    while cursor < |input|
      invariant start + 1 <= cursor <= |input|
      invariant text == input[start + 1..cursor]
      invariant forall k | start < k < cursor :: input[k] != '"'
    {
      var c := input[cursor];
      cursor := cursor + 1;
      if c == '"' {
        EndOfFirst(input, start + 1, cursor - 1, '"');
        return Ok((text, cursor));
      }
      text := text + [c];
    }
    EndOfFirst(input, start + 1, |input|, '"');
    return Err(UnterminatedMessage);
  }

  /** `parseTag`: from the plus at `start`, the name up to the next space (consumed) or the end. */
  method ParseTag(input: string, start: nat) returns (tag: Tag, next: nat)
    requires start < |input| && input[start] == '+'
    ensures start < next <= |input|
    ensures ' ' !in tag.name
    ensures input[next - 1] == ' ' ==> tag.name == input[start + 1..next - 1]
    ensures input[next - 1] != ' ' ==> next == |input| && tag.name == input[start + 1..]
    ensures tag.name == input[start + 1..EndOf(input, start + 1, ' ')]
    ensures next == if EndOf(input, start + 1, ' ') < |input| then EndOf(input, start + 1, ' ') + 1 else |input|
  {
    next := start + 1;
    tag := Tag("");
    while next < |input|
      invariant start + 1 <= next <= |input|
      invariant tag.name == input[start + 1..next]
      invariant forall k | start < k < next :: input[k] != ' '
    {
      var c := input[next];
      next := next + 1;
      if c == ' ' {
        EndOfFirst(input, start + 1, next - 1, ' ');
        return;
      }
      tag := tag.(name := tag.name + [c]);
    }
    EndOfFirst(input, start + 1, |input|, ' ');
  }

  /** `parseTodoLiteral`: the scanner, for every input on which its top-level loop ends. */
  method ParseTodoLiteral(input: string) returns (r: Result<TodoLiteral>)
    requires Progresses(input)
    ensures Parse(input).Scanned? ==> r == Ok(Parse(input).todo)
    ensures Parse(input).Unterminated? ==> r == Err(UnterminatedMessage)
  {
    ghost var outcome := Parse(input);
    var todo := EmptyTodo;
    var cursor: nat := 0;
    while cursor < |input|
      invariant cursor <= |input|
      invariant Scan(input, cursor, todo) == outcome
      decreases |input| - cursor
    {
      var c := input[cursor];
      if c == ' ' {
        cursor := cursor + 1;
      } else if c == '"' {
        var t := ParseText(input, cursor);
        if t.Err? {
          return Err(t.error);
        }
        todo := todo.(text := t.value.0);
        cursor := t.value.1;
      } else if c == '+' {
        var tag, next := ParseTag(input, cursor);
        todo := todo.(tags := todo.tags + [tag]);
        cursor := next;
      } else {
        assert false;
      }
    }
    return Ok(todo);
  }


  // Properties of the specification

  lemma {:induction false} SpacesScanToEnd(s: string, c: nat, todo: TodoLiteral)
    requires c <= |s|
    requires forall k | c <= k < |s| :: s[k] == ' '
    ensures Scan(s, c, todo) == Scanned(todo)
    decreases |s| - c
  {
    if c < |s| {
      SpacesScanToEnd(s, c + 1, todo);
    }
  }

  /** Empty or all-space input gives the empty literal. */
  lemma BlankParsesEmpty(s: string)
    requires forall k | 0 <= k < |s| :: s[k] == ' '
    ensures Parse(s) == Scanned(EmptyTodo)
  {
    SpacesScanToEnd(s, 0, EmptyTodo);
  }

  /** The first `c` from `i` on is at `e` when there is none between them. */
  lemma {:induction false} EndOfFirst(s: string, i: nat, e: nat, c: char)
    requires i <= e <= |s| && (e < |s| ==> s[e] == c)
    requires forall k | i <= k < e :: s[k] != c
    ensures EndOf(s, i, c) == e
    decreases e - i
  {
    if i < e {
      EndOfFirst(s, i + 1, e, c);
    }
  }

  /** A turn that moves the cursor leaves the outcome of the rest of the scan to the new position. */
  lemma ScanAdvance(s: string, c: nat, todo: TodoLiteral, next: nat, todo': TodoLiteral)
    requires c <= |s| && Step(s, c, todo) == Advance(next, todo')
    ensures Scan(s, c, todo) == Scan(s, next, todo')
  {
  }

  /** A quoted segment after any prefix sets the text to its characters verbatim and moves past the closing quote. */
  lemma QuotedSegment(s: string, p: string, text: string, rest: string, todo: TodoLiteral)
    requires s == p + "\"" + text + "\"" + rest && '"' !in text
    ensures Step(s, |p|, todo) == Advance(|p| + |text| + 2, todo.(text := text))
  {
    var e := |p| + |text| + 1;
    forall k | |p| + 1 <= k < e ensures s[k] != '"' {
      assert s[k] == text[k - |p| - 1];
    }
    assert s[|p| + 1..e] == text;
    EndOfFirst(s, |p| + 1, e, '"');
  }

  /** A tag followed by a space appends its name and moves past the space. */
  lemma TagSegment(s: string, p: string, name: string, rest: string, todo: TodoLiteral)
    requires s == p + "+" + name + " " + rest && ' ' !in name
    ensures Step(s, |p|, todo) == Advance(|p| + |name| + 2, todo.(tags := todo.tags + [Tag(name)]))
  {
    var e := |p| + |name| + 1;
    forall k | |p| + 1 <= k < e ensures s[k] != ' ' {
      assert s[k] == name[k - |p| - 1];
    }
    assert s[|p| + 1..e] == name;
    EndOfFirst(s, |p| + 1, e, ' ');
  }

  /** A tag at the end of the input is a tag, not an error; `"` and `+` belong to its name. */
  lemma FinalTag(s: string, p: string, name: string, todo: TodoLiteral)
    requires s == p + "+" + name && ' ' !in name
    ensures Step(s, |p|, todo) == Advance(|s|, todo.(tags := todo.tags + [Tag(name)]))
  {
    forall k | |p| + 1 <= k < |s| ensures s[k] != ' ' {
      assert s[k] == name[k - |p| - 1];
    }
    assert s[|p| + 1..|s|] == name;
    EndOfFirst(s, |p| + 1, |s|, ' ');
  }

  /** A top-level space is skipped and changes nothing. */
  lemma SpaceSegment(s: string, p: string, rest: string, todo: TodoLiteral)
    requires s == p + " " + rest
    ensures Step(s, |p|, todo) == Advance(|p| + 1, todo)
  {
    assert s[|p|] == ' ';
  }

  /** A quoted segment becomes the text verbatim, spaces included. */
  lemma QuotedTextVerbatim(t: string)
    requires '"' !in t
    ensures Parse("\"" + t + "\"") == Scanned(TodoLiteral(t, []))
  {
    var s := "\"" + t + "\"";
    QuotedSegment(s, [], t, [], EmptyTodo);
    ScanAdvance(s, 0, EmptyTodo, |s|, TodoLiteral(t, []));
  }

  /** A quote never closed, wherever the scan meets it, is the unterminated-literal error. */
  lemma UnclosedQuoteAt(s: string, p: string, t: string, todo: TodoLiteral)
    requires s == p + "\"" + t && '"' !in t
    ensures Scan(s, |p|, todo) == Unterminated
  {
    forall k | |p| + 1 <= k < |s| ensures s[k] != '"' {
      assert s[k] == t[k - |p| - 1];
    }
    EndOfFirst(s, |p| + 1, |s|, '"');
  }

  /** In particular an input that opens with an unclosed quote fails. */
  lemma UnclosedQuoteFails(t: string)
    requires '"' !in t
    ensures Parse("\"" + t) == Unterminated
  {
    UnclosedQuoteAt("\"" + t, [], t, EmptyTodo);
  }

  /** With two quoted segments the later one is the text. */
  lemma LastQuotedWins(a: string, b: string)
    requires '"' !in a && '"' !in b
    ensures Parse("\"" + a + "\"" + "\"" + b + "\"") == Scanned(TodoLiteral(b, []))
  {
    var first := "\"" + a + "\"";
    var s := "\"" + a + "\"" + "\"" + b + "\"";
    QuotedSegment(s, [], a, "\"" + b + "\"", EmptyTodo);
    ScanAdvance(s, 0, EmptyTodo, |first|, TodoLiteral(a, []));
    QuotedSegment(s, first, b, [], TodoLiteral(a, []));
    ScanAdvance(s, |first|, TodoLiteral(a, []), |s|, TodoLiteral(b, []));
  }

  /** A tag runs to the end of the input without error. */
  lemma TagToEnd(name: string)
    requires ' ' !in name
    ensures Parse("+" + name) == Scanned(TodoLiteral("", [Tag(name)]))
  {
    var s := "+" + name;
    FinalTag(s, [], name, EmptyTodo);
    ScanAdvance(s, 0, EmptyTodo, |s|, TodoLiteral("", [Tag(name)]));
  }

  /** `+a+b` is one tag named `a+b`. */
  lemma PlusInsideTag()
    ensures Parse("+a+b") == Scanned(TodoLiteral("", [Tag("a+b")]))
  {
    TagToEnd("a+b");
    assert "+" + "a+b" == "+a+b";
  }

  /** A quote opened after a tag and never closed fails too: `+a "b` is unterminated. */
  lemma TagThenUnclosedQuote(name: string, t: string)
    requires ' ' !in name && '"' !in t
    ensures Parse("+" + name + " " + "\"" + t) == Unterminated
  {
    var s := "+" + name + " " + "\"" + t;
    var p := "+" + name + " ";
    TagSegment(s, [], name, "\"" + t, EmptyTodo);
    ScanAdvance(s, 0, EmptyTodo, |p|, TodoLiteral("", [Tag(name)]));
    UnclosedQuoteAt(s, p, t, TodoLiteral("", [Tag(name)]));
  }

  /** A top-level character other than space, quote or plus, wherever the scan meets it, stalls the scan. */
  lemma OtherCharStallsAt(s: string, p: string, c: char, rest: string, todo: TodoLiteral)
    requires s == p + [c] + rest && c != ' ' && c != '"' && c != '+'
    ensures Scan(s, |p|, todo) == Stuck
  {
    assert s[|p|] == c;
  }

  /** In particular an input that opens with such a character leaves the source looping. */
  lemma OtherCharStalls(c: char, rest: string)
    requires c != ' ' && c != '"' && c != '+'
    ensures !Progresses([c] + rest)
  {
    OtherCharStallsAt([c] + rest, [], c, rest, EmptyTodo);
  }

  /** A stray character after a quoted text stalls: `"buy milk" x` does not progress. */
  lemma TextThenOtherChar(t: string, c: char, rest: string)
    requires '"' !in t && c != ' ' && c != '"' && c != '+'
    ensures !Progresses("\"" + t + "\"" + " " + [c] + rest)
  {
    var s := "\"" + t + "\"" + " " + [c] + rest;
    var q := "\"" + t + "\"";
    QuotedSegment(s, [], t, " " + [c] + rest, EmptyTodo);
    ScanAdvance(s, 0, EmptyTodo, |q|, TodoLiteral(t, []));
    SpaceSegment(s, q, [c] + rest, TodoLiteral(t, []));
    ScanAdvance(s, |q|, TodoLiteral(t, []), |q| + 1, TodoLiteral(t, []));
    OtherCharStallsAt(s, q + " ", c, rest, TodoLiteral(t, []));
  }

  /** The tags written `+a +b +c`. */
  function TagList(names: seq<string>): string
  {
    if names == [] then ""
    else if |names| == 1 then "+" + names[0]
    else "+" + names[0] + " " + TagList(names[1..])
  }

  function Tags(names: seq<string>): (tags: seq<Tag>)
    ensures |tags| == |names|
    ensures forall k | 0 <= k < |names| :: tags[k] == Tag(names[k])
  {
    if names == [] then [] else [Tag(names[0])] + Tags(names[1..])
  }

  /** Tags after any prefix are appended in the order written, with no de-duplication. */
  lemma {:induction false} TagListScans(s: string, p: string, names: seq<string>, todo: TodoLiteral)
    requires s == p + TagList(names)
    requires forall k | 0 <= k < |names| :: ' ' !in names[k]
    ensures Scan(s, |p|, todo) == Scanned(todo.(tags := todo.tags + Tags(names)))
    decreases |names|
  {
    if names == [] {
      assert todo.tags + [] == todo.tags;
    } else if |names| == 1 {
      var todo' := todo.(tags := todo.tags + [Tag(names[0])]);
      FinalTag(s, p, names[0], todo);
      ScanAdvance(s, |p|, todo, |s|, todo');
      assert todo.tags + Tags(names) == todo.tags + [Tag(names[0])];
    } else {
      var rest := names[1..];
      var todo' := todo.(tags := todo.tags + [Tag(names[0])]);
      var p' := p + "+" + names[0] + " ";
      assert forall k | 0 <= k < |rest| :: ' ' !in rest[k] by {
        forall k | 0 <= k < |rest| ensures ' ' !in rest[k] { assert rest[k] == names[k + 1]; }
      }
      assert s == p + "+" + names[0] + " " + TagList(rest) == p' + TagList(rest);
      TagSegment(s, p, names[0], TagList(rest), todo);
      ScanAdvance(s, |p|, todo, |p'|, todo');
      TagListScans(s, p', rest, todo');
      TagsStep(todo.tags, names);
    }
  }

  lemma TagsStep(tags: seq<Tag>, names: seq<string>)
    requires |names| >= 1
    ensures tags + [Tag(names[0])] + Tags(names[1..]) == tags + Tags(names)
  {
    assert Tags(names) == [Tag(names[0])] + Tags(names[1..]);
  }

  /** `"t" +a +b` parses to text `t` and tags `a`, `b` in order, for any text without quotes and names without spaces. */
  lemma RenderedLiteralParses(text: string, names: seq<string>)
    requires '"' !in text
    requires forall k | 0 <= k < |names| :: ' ' !in names[k]
    ensures Parse("\"" + text + "\"" + " " + TagList(names)) == Scanned(TodoLiteral(text, Tags(names)))
  {
    var tl := TagList(names);
    var quoted := "\"" + text + "\"";
    var s := quoted + " " + tl;
    var t := TodoLiteral(text, []);
    RenderedShape(text, tl);
    QuotedSegment(s, [], text, " " + tl, EmptyTodo);
    ScanAdvance(s, 0, EmptyTodo, |quoted|, t);
    SpaceSegment(s, quoted, tl, t);
    ScanAdvance(s, |quoted|, t, |quoted| + 1, t);
    TagListScans(s, quoted + " ", names, t);
    assert [] + Tags(names) == Tags(names);
  }

  lemma RenderedShape(text: string, tl: string)
    ensures var s := "\"" + text + "\"" + " " + tl;
            s == [] + "\"" + text + "\"" + (" " + tl) && s == ("\"" + text + "\"" + " ") + tl
  {
    assert [] + "\"" + text + "\"" == "\"" + text + "\"";
  }

  /** The test case `"hello world" +foo +bar`. */
  lemma HelloWorldExample()
    ensures Parse("\"hello world\" +foo +bar")
            == Scanned(TodoLiteral("hello world", [Tag("foo"), Tag("bar")]))
  {
    var names := ["foo", "bar"];
    HelloWorldShape();
    RenderedLiteralParses("hello world", names);
    assert Tags(names) == [Tag("foo"), Tag("bar")];
  }

  lemma HelloWorldShape()
    ensures "\"hello world\" +foo +bar" == "\"" + "hello world" + "\"" + " " + TagList(["foo", "bar"])
  {
    var names := ["foo", "bar"];
    assert names[1..] == ["bar"];
    assert TagList(names) == "+foo +bar";
  }
}
