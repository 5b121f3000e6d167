/**
 * The TODO part of the builder: normalising TODO lines, picking the first
 * TODO file that has content, and the README synopsis.
 */
module TodoList {
  import opened Wrappers
  import opened Text
  import opened Sorting
  import opened Schemas
  import opened Client

  /** The files searched for TODOs, in order of preference. */
  const TodoFilenames: seq<string> := ["docs/TODO.md", "TODO.md", "todo.md", "docs/ROADMAP.md"]

  /** The most lines a synopsis keeps. */
  const SynopsisCap: nat := 5

  /** Python truthiness of an optional string: present and non-empty. */
  predicate Truthy(o: Option<string>) {
    o.Some? && o.value != ""
  }

  predicate IsListMarker(c: char) {
    c == '-' || c == '*'
  }

  /** `[ ]`, `[x]` or `[X]` at the start of `s`. */
  predicate StartsWithCheckbox(s: string) {
    |s| >= 3 && s[0] == '[' && (s[1] == ' ' || s[1] == 'x' || s[1] == 'X') && s[2] == ']'
  }

  /** The line's first non-blank character is a list marker. */
  predicate HasListMarker(line: string) {
    LStrip(line) != [] && IsListMarker(LStrip(line)[0])
  }

  /**
   * What the substitution of `^\s*[-*]\s*(\[[ xX]\])?\s*` by "" leaves: when
   * the line opens with a list marker, everything after the marker, an
   * optional checkbox and the blanks around them; otherwise the line
   * itself.  `MarkerShape` states which tail that is.
   */
  function DropListMarker(line: string): (r: string)
    ensures IsSuffix(r, line)
    ensures HasListMarker(line) ==> |r| < |LStrip(line)|
    ensures !HasListMarker(line) ==> r == line
  {
    var t := LStrip(line);
    if t != [] && IsListMarker(t[0]) then
      var v := DropCheckbox(LStrip(t[1..]));
      MarkerTail(line, v);
      v
    else line
  }

  /** An optional `[ ]`, `[x]` or `[X]` and the blanks after it, dropped from the start of `u`. */
  function DropCheckbox(u: string): (r: string)
    ensures IsSuffix(r, u)
    ensures StartsWithCheckbox(u) ==> |r| <= |u| - 3
    ensures !StartsWithCheckbox(u) ==> r == u
  {
    if StartsWithCheckbox(u) then
      var v := LStrip(u[3..]);
      SuffixTrans(v, u[3..], u);
      v
    else u
  }

  /** What is left after the marker and the blanks after it is a tail of the line, shorter than its stripped start. */
  lemma MarkerTail(line: string, v: string)
    requires LStrip(line) != []
    requires IsSuffix(v, LStrip(LStrip(line)[1..]))
    ensures IsSuffix(v, line) && |v| < |LStrip(line)|
  {
    var t := LStrip(line);
    var u := LStrip(t[1..]);
    SuffixTrans(u, t[1..], t);
    SuffixTrans(u, t, line);
    SuffixTrans(v, u, line);
  }

  /** `_normalize_todo_line`: the line without its list marker and checkbox, trimmed. */
  function NormalizeTodoLine(line: string): string {
    Strip(DropListMarker(line))
  }

  /**
   * A normalised line has no blank at either end and is a tail of the line
   * minus its trailing blanks, so nothing is cut off at the end; with no
   * marker it is just the trimmed line, and with one it is shorter than
   * the trimmed line.
   */
  lemma NormalizeTodoLineSpec(line: string)
    ensures Trimmed(NormalizeTodoLine(line))
    ensures IsSuffix(NormalizeTodoLine(line), RStrip(line))
    ensures !HasListMarker(line) ==> NormalizeTodoLine(line) == Strip(line)
    ensures HasListMarker(line) ==> |NormalizeTodoLine(line)| < |Strip(line)|
  {
    StripOfTail(line, DropListMarker(line));
    if HasListMarker(line) {
      StripOfShorterTail(line, DropListMarker(line));
    }
  }

  /**
   * Every line with a list marker is leading blanks, the marker, blanks,
   * an optional checkbox, blanks and a rest that starts with no blank
   * (and, when the checkbox is absent, with no checkbox either); the
   * substitution leaves exactly that rest.
   */
  lemma MarkerShape(line: string) returns (b0: string, m: char, b1: string, box: string, b2: string, rest: string)
    requires HasListMarker(line)
    ensures AllSpace(b0) && IsListMarker(m) && AllSpace(b1) && AllSpace(b2)
    ensures box == [] || (|box| == 3 && StartsWithCheckbox(box))
    ensures rest == [] || !IsSpace(rest[0])
    ensures box == [] ==> b2 == [] && !StartsWithCheckbox(rest)
    ensures line == b0 + ([m] + (b1 + (box + (b2 + rest))))
    ensures DropListMarker(line) == rest
  {
    var u;
    b0, m, b1, u := MarkerSplit(line);
    if StartsWithCheckbox(u) {
      box, b2, rest := CheckboxSplit(u);
      DropCheckboxItem(b0, m, b1, box, b2, rest);
    } else {
      box, b2, rest := [], [], u;
      assert u == box + (b2 + rest);
      DropPlainItem(b0, m, b1, rest);
    }
  }

  /** A text that opens with a checkbox is the checkbox, blanks, and a rest that starts with no blank. */
  lemma CheckboxSplit(u: string) returns (box: string, b2: string, rest: string)
    requires StartsWithCheckbox(u)
    ensures |box| == 3 && StartsWithCheckbox(box) && AllSpace(b2)
    ensures rest == [] || !IsSpace(rest[0])
    ensures u == box + (b2 + rest)
  {
    box := u[..3];
    b2 := LStripSplit(u[3..]);
    rest := LStrip(u[3..]);
    HeadThenRest(u, 3);
  }

  /** A line with a list marker is leading blanks, the marker, blanks, and a rest that starts with no blank. */
  lemma MarkerSplit(line: string) returns (b0: string, m: char, b1: string, u: string)
    requires HasListMarker(line)
    ensures AllSpace(b0) && IsListMarker(m) && AllSpace(b1)
    ensures u == [] || !IsSpace(u[0])
    ensures line == b0 + ([m] + (b1 + u))
  {
    b0 := LStripSplit(line);
    var t := LStrip(line);
    m := t[0];
    b1 := LStripSplit(t[1..]);
    u := LStrip(t[1..]);
    HeadThenRest(t, 1);
    assert t[..1] == [m];
  }

  /** For a line that opens with a marker, the substitution drops it, the blanks after it and an optional checkbox. */
  lemma DropAtMarker(l: string)
    requires l != [] && IsListMarker(l[0])
    ensures DropListMarker(l) == DropCheckbox(LStrip(l[1..]))
  {
    LStripKeeps(l);
  }

  /** A marker and the blanks after it go, and `DropCheckbox` takes over. */
  lemma DropMarkerBlanks(m: char, b1: string, u: string)
    requires IsListMarker(m) && AllSpace(b1)
    requires u == [] || !IsSpace(u[0])
    ensures DropListMarker([m] + (b1 + u)) == DropCheckbox(u)
  {
    var line := [m] + (b1 + u);
    DropAtMarker(line);
    assert line[1..] == b1 + u;
    LStripBlankThen(b1, u);
  }

  /** Blanks before a line that opens with a marker change nothing the substitution leaves. */
  lemma IndentedMarker(b0: string, l: string)
    requires AllSpace(b0) && l != [] && IsListMarker(l[0])
    ensures DropListMarker(b0 + l) == DropListMarker(l)
  {
    LStripBlankThen(b0, l);
    LStripKeeps(l);
  }

  /**
   * Blanks, a marker, blanks, a checkbox and blanks are what the
   * substitution removes from the start of a line.
   */
  lemma DropCheckboxItem(b0: string, m: char, b1: string, box: string, b2: string, rest: string)
    requires IsListMarker(m) && |box| == 3 && StartsWithCheckbox(box)
    requires AllSpace(b0) && AllSpace(b1) && AllSpace(b2)
    requires rest == [] || !IsSpace(rest[0])
    ensures DropListMarker(b0 + ([m] + (b1 + (box + (b2 + rest))))) == rest
  {
    DropCheckboxThen(box, b2, rest);
    DropMarkerBlanks(m, b1, box + (b2 + rest));
    IndentedMarker(b0, [m] + (b1 + (box + (b2 + rest))));
  }

  /** A checkbox and the blanks after it are what `DropCheckbox` removes. */
  lemma DropCheckboxThen(box: string, b2: string, rest: string)
    requires |box| == 3 && StartsWithCheckbox(box) && AllSpace(b2)
    requires rest == [] || !IsSpace(rest[0])
    ensures DropCheckbox(box + (b2 + rest)) == rest
  {
    var u := box + (b2 + rest);
    assert StartsWithCheckbox(u) by {
      assert u[0] == box[0] && u[1] == box[1] && u[2] == box[2];
    }
    assert u[3..] == b2 + rest;
    LStripBlankThen(b2, rest);
  }

  /**
   * Blanks, a marker and blanks are what the substitution removes from a
   * line whose rest opens with no checkbox.
   */
  lemma DropPlainItem(b0: string, m: char, b1: string, rest: string)
    requires IsListMarker(m) && AllSpace(b0) && AllSpace(b1)
    requires rest == [] || (!IsSpace(rest[0]) && !StartsWithCheckbox(rest))
    ensures DropListMarker(b0 + ([m] + (b1 + rest))) == rest
  {
    DropMarkerBlanks(m, b1, rest);
    IndentedMarker(b0, [m] + (b1 + rest));
  }

  /**
   * Blanks, a marker, blanks, a checkbox, blanks, a trimmed text and
   * trailing blanks normalise to the text: nothing of the text itself is
   * removed.
   */
  lemma NormalizeCheckboxItem(b0: string, m: char, b1: string, box: string, b2: string, t: string, b3: string)
    requires IsListMarker(m) && |box| == 3 && StartsWithCheckbox(box)
    requires AllSpace(b0) && AllSpace(b1) && AllSpace(b2) && AllSpace(b3)
    requires t != [] && Trimmed(t)
    ensures NormalizeTodoLine(b0 + ([m] + (b1 + (box + (b2 + (t + b3)))))) == t
  {
    DropCheckboxItem(b0, m, b1, box, b2, t + b3);
    TrimmedThenBlank(t, b3);
  }

  /**
   * Blanks, a marker, blanks, a trimmed text that opens with no checkbox,
   * and trailing blanks normalise to the text.
   */
  lemma NormalizePlainItem(b0: string, m: char, b1: string, t: string, b3: string)
    requires IsListMarker(m) && AllSpace(b0) && AllSpace(b1) && AllSpace(b3)
    requires t != [] && Trimmed(t) && !StartsWithCheckbox(t)
    ensures NormalizeTodoLine(b0 + ([m] + (b1 + (t + b3)))) == t
  {
    assert (t + b3)[0] == t[0];
    assert |t| >= 3 ==> (t + b3)[..3] == t[..3];
    assert |t| < 3 ==> (t + b3)[|t| - 1] == t[|t| - 1];
    DropPlainItem(b0, m, b1, t + b3);
    TrimmedThenBlank(t, b3);
  }

  /** A trimmed non-empty text followed by blanks strips to the text. */
  lemma TrimmedThenBlank(t: string, b3: string)
    requires t != [] && Trimmed(t) && AllSpace(b3)
    ensures Strip(t + b3) == t
  {
    LStripKeeps(t + b3);
    RStripThenBlank(t, b3);
  }

  /** The open item of the documentation: `- [ ] Fix bug` becomes `Fix bug`. */
  lemma NormalizeOpenExample(line: string)
    requires line == "- [ ] Fix bug"
    ensures NormalizeTodoLine(line) == "Fix bug"
  {
    var none, blank, box, text := "", " ", "[ ]", "Fix bug";
    assert line == none + (['-'] + (blank + (box + (blank + (text + none)))));
    NormalizeCheckboxItem(none, '-', blank, box, blank, text, none);
  }

  /** The done item of the documentation: `* [x]   Done thing  ` becomes `Done thing`. */
  lemma NormalizeDoneExample(line: string)
    requires line == "* [x]   Done thing  "
    ensures NormalizeTodoLine(line) == "Done thing"
  {
    var none, b1, box, b2, text, b3 := "", " ", "[x]", "   ", "Done thing", "  ";
    assert line == none + (['*'] + (b1 + (box + (b2 + (text + b3)))));
    NormalizeCheckboxItem(none, '*', b1, box, b2, text, b3);
  }

  /** An indented sub-item: `  - [ ] sub-task` becomes `sub-task`. */
  lemma NormalizeIndentedExample(line: string)
    requires line == "  - [ ] sub-task"
    ensures NormalizeTodoLine(line) == "sub-task"
  {
    var none, indent, blank, box, text := "", "  ", " ", "[ ]", "sub-task";
    assert line == indent + (['-'] + (blank + (box + (blank + (text + none)))));
    NormalizeCheckboxItem(indent, '-', blank, box, blank, text, none);
  }

  /** An indented plain item: `    * Write docs ` becomes `Write docs`. */
  lemma NormalizeIndentedPlainExample(line: string)
    requires line == "    * Write docs "
    ensures NormalizeTodoLine(line) == "Write docs"
  {
    var indent, blank, text := "    ", " ", "Write docs";
    assert line == indent + (['*'] + (blank + (text + blank)));
    NormalizePlainItem(indent, '*', blank, text, blank);
  }

  /** The images of `lines` under `f` that `keep` accepts, in order. */
  function KeptImages(lines: seq<string>, f: string -> string, keep: string -> bool): seq<string> {
    if lines == [] then []
    else
      var n := f(lines[|lines| - 1]);
      KeptImages(lines[..|lines| - 1], f, keep) + (if keep(n) then [n] else [])
  }

  /** Mapping and filtering distributes over concatenation, so input order is kept. */
  lemma {:induction false} KeptImagesAppend(a: seq<string>, b: seq<string>, f: string -> string, keep: string -> bool)
    ensures KeptImages(a + b, f, keep) == KeptImages(a, f, keep) + KeptImages(b, f, keep)
    decreases |b|
  {
    if b == [] {
      assert a + b == a;
    } else {
      var init := b[..|b| - 1];
      assert (a + b)[..|a + b| - 1] == a + init;
      assert (a + b)[|a + b| - 1] == b[|b| - 1];
      KeptImagesAppend(a, init, f, keep);
    }
  }

  /** One more line adds its image when that image is kept. */
  lemma KeptImagesStep(lines: seq<string>, i: nat, f: string -> string, keep: string -> bool)
    requires i < |lines|
    ensures KeptImages(lines[..i + 1], f, keep) ==
              KeptImages(lines[..i], f, keep) + (if keep(f(lines[i])) then [f(lines[i])] else [])
  {
    assert lines[..i + 1][..i] == lines[..i];
  }

  /**
   * There are no more kept images than lines, and a string is kept exactly
   * when `keep` accepts it and it is the image of some line.
   */
  lemma {:induction false} KeptImagesSpec(lines: seq<string>, f: string -> string, keep: string -> bool)
    ensures |KeptImages(lines, f, keep)| <= |lines|
    ensures forall t :: t in KeptImages(lines, f, keep) <==> keep(t) && exists l | l in lines :: f(l) == t
  {
    if lines != [] {
      var init := lines[..|lines| - 1];
      var last := lines[|lines| - 1];
      KeptImagesSpec(init, f, keep);
      assert lines == init + [last];
      forall t ensures t in KeptImages(lines, f, keep) <==> keep(t) && exists l | l in lines :: f(l) == t {
        if keep(t) && (exists l | l in lines :: f(l) == t) {
          var l :| l in lines && f(l) == t;
          if l != last {
            assert l in init;
          }
        }
      }
    }
  }

  predicate NonEmpty(s: string) {
    s != ""
  }

  /** `_parse_todos_from_content`'s result for the given lines: every non-empty normalised line, in order. */
  function TodoLines(lines: seq<string>): seq<string> {
    KeptImages(lines, NormalizeTodoLine, NonEmpty)
  }

  /**
   * TODO lines are non-empty and trimmed, there are no more of them than
   * input lines, a string is a TODO exactly when it is the non-empty
   * normalisation of some line, and the lines of a concatenation give the
   * TODOs of each part in order.
   */
  lemma TodoLinesSpec(lines: seq<string>, more: seq<string>)
    ensures |TodoLines(lines)| <= |lines|
    ensures forall t | t in TodoLines(lines) :: t != "" && Trimmed(t)
    ensures forall t :: t in TodoLines(lines) <==> t != "" && exists l | l in lines :: NormalizeTodoLine(l) == t
    ensures TodoLines(lines + more) == TodoLines(lines) + TodoLines(more)
  {
    KeptImagesSpec(lines, NormalizeTodoLine, NonEmpty);
    KeptImagesAppend(lines, more, NormalizeTodoLine, NonEmpty);
    forall t | t in TodoLines(lines) ensures t != "" && Trimmed(t) {
      var l :| l in lines && NormalizeTodoLine(l) == t;
      NormalizeTodoLineSpec(l);
    }
  }

  /** The loop of `_parse_todos_from_content`: map each line, keep the images `keep` accepts. */
  method KeepImages(lines: seq<string>, f: string -> string, keep: string -> bool) returns (kept: seq<string>)
    ensures kept == KeptImages(lines, f, keep)
  {
    kept := [];
    for i := 0 to |lines|
      invariant kept == KeptImages(lines[..i], f, keep)
    {
      KeptImagesStep(lines, i, f, keep);
      var image := f(lines[i]);
      if keep(image) {
        kept := kept + [image];
      }
    }
    assert lines[..|lines|] == lines;
  }

  /** `_parse_todos_from_content` */
  method ParseTodosFromContent(content: string) returns (todos: seq<string>)
    ensures todos == TodoLines(SplitLines(content))
  {
    todos := KeepImages(SplitLines(content), NormalizeTodoLine, NonEmpty);
  }

  /** The content of the first of `names` whose fetch gives a non-empty text. */
  function FirstContent(api: Api, full: string, names: seq<string>): Option<string> {
    if names == [] then None
    else
      var content := FileContent(api, full, names[0]);
      if Truthy(content) then content else FirstContent(api, full, names[1..])
  }

  /**
   * The chosen content is present exactly when some candidate has content,
   * and it is the content of the first such candidate.
   */
  lemma {:induction false} FirstContentSpec(api: Api, full: string, names: seq<string>)
    ensures FirstContent(api, full, names).Some? <==>
              exists k :: 0 <= k < |names| && Truthy(FileContent(api, full, names[k]))
    ensures FirstContent(api, full, names).Some? ==>
              exists k :: 0 <= k < |names| && FirstContent(api, full, names) == FileContent(api, full, names[k])
                          && Truthy(FileContent(api, full, names[k]))
                          && forall j :: 0 <= j < k ==> !Truthy(FileContent(api, full, names[j]))
  {
    if names != [] {
      FirstContentSpec(api, full, names[1..]);
      if !Truthy(FileContent(api, full, names[0])) && FirstContent(api, full, names).Some? {
        var k :| 0 <= k < |names[1..]| && FirstContent(api, full, names[1..]) == FileContent(api, full, names[1..][k])
                 && Truthy(FileContent(api, full, names[1..][k]))
                 && forall j :: 0 <= j < k ==> !Truthy(FileContent(api, full, names[1..][j]));
        assert forall j :: 0 < j <= k ==> names[j] == names[1..][j - 1];
      }
      if exists k :: 0 <= k < |names| && Truthy(FileContent(api, full, names[k])) {
        var k :| 0 <= k < |names| && Truthy(FileContent(api, full, names[k]));
        if k > 0 {
          assert names[1..][k - 1] == names[k];
        }
      }
    }
  }

  /** The loop over the TODO filenames in `build_todos`. */
  method FindTodoFile(client: GitHubClient, full: string) returns (r: Result<Option<string>, ClientError>)
    ensures !client.open ==> r == Failure(Closed)
    ensures client.open ==> r == Success(FirstContent(client.api, full, TodoFilenames))
  {
    var k := 0;
    while k < |TodoFilenames|
      invariant 0 <= k <= |TodoFilenames|
      invariant k > 0 ==> client.open
      invariant FirstContent(client.api, full, TodoFilenames) == FirstContent(client.api, full, TodoFilenames[k..])
    {
      var content := client.GetFileContent(full, TodoFilenames[k]);
      if content.Failure? {
        return Failure(content.error);
      }
      if Truthy(content.value) {
        return Success(content.value);
      }
      assert TodoFilenames[k..][1..] == TodoFilenames[k + 1..];
      k := k + 1;
    }
    return Success(None);
  }

  /** A README line worth showing: not blank and not a heading. */
  predicate IsSynopsisLine(s: string) {
    s != "" && !StartsWithHash(s)
  }

  /** `[line.strip() for line in lines if line.strip() and not line.strip().startswith("#")]` */
  function SynopsisLines(lines: seq<string>): seq<string> {
    KeptImages(lines, Strip, IsSynopsisLine)
  }

  /** The synopsis lines of a README: its first five trimmed lines that are neither blank nor headings. */
  function Synopsis(readme: string): seq<string> {
    Take(SynopsisLines(SplitLines(Strip(readme))), SynopsisCap)
  }

  /**
   * A synopsis has at most five lines, each trimmed, non-empty and not a
   * heading; it is the start of the README's candidate lines in README
   * order, and it holds every candidate line when there are fewer than five
   * and exactly five otherwise.
   */
  lemma SynopsisSpec(readme: string)
    ensures |Synopsis(readme)| <= SynopsisCap
    ensures forall s | s in Synopsis(readme) ::
              s != "" && Trimmed(s) && !StartsWithHash(s)
              && exists l | l in SplitLines(Strip(readme)) :: Strip(l) == s
    ensures Synopsis(readme) <= SynopsisLines(SplitLines(Strip(readme)))
    ensures |Synopsis(readme)| ==
              var n := |SynopsisLines(SplitLines(Strip(readme)))|; if n < SynopsisCap then n else SynopsisCap
  {
    var lines := SplitLines(Strip(readme));
    KeptImagesSpec(lines, Strip, IsSynopsisLine);
    forall s | s in Synopsis(readme)
      ensures s != "" && Trimmed(s) && !StartsWithHash(s) && exists l | l in lines :: Strip(l) == s
    {
      assert s in SynopsisLines(lines);
      var l :| l in lines && Strip(l) == s;
    }
  }

  /** The TODO record `build_todos` produces for one repository. */
  function TodoItem(api: Api, full: string, readme: Option<string>): RepoTodosItem {
    var todoContent := FirstContent(api, full, TodoFilenames);
    var readmeContent := if Truthy(readme) then readme else FileContent(api, full, "README.md");
    RepoTodosItem(
      full := full,
      todos := if Truthy(todoContent) then Some(TodoLines(SplitLines(todoContent.value))) else None,
      synopsis := if Truthy(readmeContent) then Some(Synopsis(readmeContent.value)) else None)
  }

  /**
   * A record carries the repository's name; it has TODOs exactly when one
   * of the candidate files has content; a README already on the record is
   * used as is, and there is a synopsis exactly when the README text used
   * is non-empty.
   */
  lemma TodoItemSpec(api: Api, full: string, readme: Option<string>)
    ensures TodoItem(api, full, readme).full == full
    ensures TodoItem(api, full, readme).todos.Some? <==>
              exists k :: 0 <= k < |TodoFilenames| && Truthy(FileContent(api, full, TodoFilenames[k]))
    ensures Truthy(readme) ==> TodoItem(api, full, readme).synopsis == Some(Synopsis(readme.value))
    ensures !Truthy(readme) ==>
              (TodoItem(api, full, readme).synopsis.Some? <==> Truthy(FileContent(api, full, "README.md")))
  {
    FirstContentSpec(api, full, TodoFilenames);
    var c := FirstContent(api, full, TodoFilenames);
    if c.Some? {
      var k :| 0 <= k < |TodoFilenames| && c == FileContent(api, full, TodoFilenames[k])
               && Truthy(FileContent(api, full, TodoFilenames[k]));
    }
  }

  /** The body of the `build_todos` loop: the TODO record of one repository. */
  method BuildTodoItem(client: GitHubClient, full: string, readme: Option<string>) returns (r: Result<RepoTodosItem, ClientError>)
    ensures !client.open ==> r == Failure(Closed)
    ensures client.open ==> r == Success(TodoItem(client.api, full, readme))
  {
    var found := FindTodoFile(client, full);
    if found.Failure? {
      return Failure(found.error);
    }
    var todos: Option<seq<string>> := None;
    if Truthy(found.value) {
      var parsed := ParseTodosFromContent(found.value.value);
      todos := Some(parsed);
    }
    var readmeContent := readme;
    if !Truthy(readmeContent) {
      var fetched := client.GetFileContent(full, "README.md");
      readmeContent := fetched.value;
    }
    var synopsis: Option<seq<string>> := None;
    if Truthy(readmeContent) {
      synopsis := Some(Synopsis(readmeContent.value));
    }
    return Success(RepoTodosItem(full, todos, synopsis));
  }

  /** `[f(x) for x in xs]` */
  function MapSeq<A, B>(f: A -> B, xs: seq<A>): (r: seq<B>)
    ensures |r| == |xs|
  {
    if xs == [] then [] else MapSeq(f, xs[..|xs| - 1]) + [f(xs[|xs| - 1])]
  }

  /** Mapping a list with one more element appends that element's image. */
  lemma MapSeqAppend<A, B>(f: A -> B, xs: seq<A>, x: A)
    ensures MapSeq(f, xs + [x]) == MapSeq(f, xs) + [f(x)]
  {
    assert (xs + [x])[..|xs|] == xs;
  }

  /** The element at each position is the image of the element there. */
  lemma {:induction false} MapSeqAt<A, B>(f: A -> B, xs: seq<A>, i: nat)
    requires i < |xs|
    ensures MapSeq(f, xs)[i] == f(xs[i])
  {
    var init := xs[..|xs| - 1];
    if i < |init| {
      MapSeqAt(f, init, i);
    }
  }

  /** What `build_todos` reads from each inventory record: its name and the README it carries. */
  function TodoSources(repos: seq<Repo>): (r: seq<(string, Option<string>)>)
    reads set repo | repo in repos
    ensures |r| == |repos|
    ensures forall i :: 0 <= i < |repos| ==> r[i] == (repos[i].info.full, repos[i].readme)
  {
    if repos == [] then []
    else TodoSources(repos[..|repos| - 1]) + [(repos[|repos| - 1].info.full, repos[|repos| - 1].readme)]
  }

  /** The TODO records of a list of (name, README) sources, in order. */
  function TodoItems(api: Api, sources: seq<(string, Option<string>)>): seq<RepoTodosItem> {
    MapSeq((source: (string, Option<string>)) => TodoItem(api, source.0, source.1), sources)
  }

  /** The record at each position is the TODO record of the source at that position. */
  lemma TodoItemsAt(api: Api, sources: seq<(string, Option<string>)>, i: nat)
    requires i < |sources|
    ensures TodoItems(api, sources)[i] == TodoItem(api, sources[i].0, sources[i].1)
  {
    MapSeqAt((source: (string, Option<string>)) => TodoItem(api, source.0, source.1), sources, i);
  }

  /** One more repository adds its name and README to the sources. */
  lemma TodoSourcesStep(repos: seq<Repo>, i: nat)
    requires i < |repos|
    ensures TodoSources(repos[..i + 1]) == TodoSources(repos[..i]) + [(repos[i].info.full, repos[i].readme)]
  {
    assert repos[..i + 1][..i] == repos[..i];
  }

  /** One more source adds its TODO record at the end. */
  lemma TodoItemsAppend(api: Api, sources: seq<(string, Option<string>)>, source: (string, Option<string>))
    ensures TodoItems(api, sources + [source]) == TodoItems(api, sources) + [TodoItem(api, source.0, source.1)]
  {
    MapSeqAppend((source: (string, Option<string>)) => TodoItem(api, source.0, source.1), sources, source);
  }

  /**
   * `build_todos`: one record per inventory repository, in inventory order.
   * It fails on a closed client as soon as it has a repository to look at.
   */
  method BuildTodos(client: GitHubClient, inventory: Inventory, now: int) returns (r: Result<Todos, ClientError>)
    ensures r.Failure? <==> !client.open && |inventory.repos| > 0
    ensures r.Failure? ==> r.error == Closed
    ensures r.Success? ==> r.value.username == inventory.username && r.value.generatedUtc == now
                           && r.value.schemaVersion == SchemaVersion
    ensures r.Success? ==> r.value.repos == TodoItems(client.api, TodoSources(inventory.repos))
  {
    var items: seq<RepoTodosItem> := [];
    for i := 0 to |inventory.repos|
      invariant i > 0 ==> client.open
      invariant items == TodoItems(client.api, TodoSources(inventory.repos[..i]))
    {
      var repo := inventory.repos[i];
      var item := BuildTodoItem(client, repo.info.full, repo.readme);
      if item.Failure? {
        return Failure(item.error);
      }
      TodoSourcesStep(inventory.repos, i);
      TodoItemsAppend(client.api, TodoSources(inventory.repos[..i]), (repo.info.full, repo.readme));
      items := items + [item.value];
    }
    assert inventory.repos[..|inventory.repos|] == inventory.repos;
    return Success(Todos(SchemaVersion, inventory.username, now, items));
  }
}
