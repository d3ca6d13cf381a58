/**
 The "Clever OmniFocus Tasks" converter: a document of shorthand lines
 becomes TaskPaper text in four passes over the lines: global tags, global
 defer and due dates, one task per remaining line, and the TaskPaper block
 of each task appended to the output.

 Each pass is a method with the script's loops, proved equal to a function
 of its inputs; the properties of the conversion are lemmas about those
 functions.
 */
module OmniFocus {
  import opened JsText
  import opened Patterns

  /** One task as the script holds it between extraction and emission. */
  datatype Task = Task(
    title: string,
    tags: seq<string>,
    defer: Option<string>,
    due: Option<string>,
    note: Option<string>)

  /** What the first two passes collect from the whole document. */
  datatype Globals = Globals(tags: seq<string>, defer: Option<string>, due: Option<string>)

  predicate StartsWith(line: string, c: char) {
    |line| > 0 && line[0] == c
  }

  /** The lines the task pass turns into tasks: not empty, and not a global
      tag, defer or due directive. */
  predicate IsTaskLine(line: string) {
    !StartsWith(line, '#') && !StartsWith(line, '@') && !StartsWith(line, '!') && |line| != 0
  }

  //
  // Pass 1: global tags
  //

  /** `line.split("#")[1]` on a line starting with `#`: the text between the
      leading `#` and the next `#` (or the end of the line). */
  function HashSegment(line: string): (seg: string)
    requires StartsWith(line, '#')
    ensures 1 + |seg| <= |line| && seg == line[1..1 + |seg|]
    ensures '#' !in seg
    ensures 1 + |seg| == |line| || line[1 + |seg|] == '#'
  {
    var parts := Split(line, '#');
    assert IndexOf(line, '#', 0) == 0;
    assert parts == [line[..0]] + Split(line[1..], '#');
    parts[1]
  }

  /** The global tags one line contributes: every word of its segment split
      on single spaces, empty words included. */
  function LineTags(line: string): seq<string> {
    if StartsWith(line, '#') then Split(HashSegment(line), ' ') else []
  }

  /** The global tags of a document, in document order, duplicates kept. */
  function GlobalTags(lines: seq<string>): seq<string>
    decreases |lines|
  {
    if lines == [] then []
    else GlobalTags(lines[..|lines| - 1]) + LineTags(lines[|lines| - 1])
  }

  lemma GlobalTagsSnoc(init: seq<string>, line: string)
    ensures GlobalTags(init + [line]) == GlobalTags(init) + LineTags(line)
  {
    assert (init + [line])[..|init|] == init;
  }

  lemma GlobalTagsStep(lines: seq<string>, i: nat)
    requires i < |lines|
    ensures GlobalTags(lines[..i + 1]) == GlobalTags(lines[..i]) + LineTags(lines[i])
  {
    assert lines[..i + 1][..i] == lines[..i];
  }

  method CollectGlobalTags(lines: seq<string>) returns (globalTags: seq<string>)
    ensures globalTags == GlobalTags(lines)
  {
    globalTags := [];
    for i := 0 to |lines|
      invariant globalTags == GlobalTags(lines[..i])
    {
      var line := lines[i];
      GlobalTagsStep(lines, i);
      ghost var before := globalTags;
      if StartsWith(line, '#') {
        var tmp := Split(line, '#')[1];
        var words := Split(tmp, ' ');
        for j := 0 to |words|
          invariant globalTags == before + words[..j]
        {
          TakeOneMore(words, j);
          AppendAssoc(before, words[..j], [words[j]]);
          globalTags := globalTags + [words[j]];
        }
        assert words[..|words|] == words;
      }
      assert globalTags == before + LineTags(line);
    }
    assert lines[..|lines|] == lines;
  }

  /** The global tags of a document are those of its parts, in order. */
  lemma {:induction false} GlobalTagsAppend(a: seq<string>, b: seq<string>)
    ensures GlobalTags(a + b) == GlobalTags(a) + GlobalTags(b)
    decreases |b|
  {
    if b == [] {
      assert a + b == a;
    } else {
      var b' := b[..|b| - 1];
      DropLastOfAppend(a, b);
      GlobalTagsAppend(a, b');
      AppendAssoc(GlobalTags(a), GlobalTags(b'), LineTags(b[|b| - 1]));
    }
  }

  /** Pieces of a split hold only characters of the split text. */
  lemma {:induction false} SplitKeepsAbsent(s: string, sep: char, c: char)
    requires c !in s
    ensures forall p | p in Split(s, sep) :: c !in p
    decreases |s|
  {
    var i := IndexOf(s, sep, 0);
    if i < |s| {
      SplitKeepsAbsent(s[i + 1..], sep, c);
      assert c !in s[..i];
      assert Split(s, sep) == [s[..i]] + Split(s[i + 1..], sep);
    }
  }

  /** A `#` line contributes exactly the space-separated words of its segment:
      joined back with spaces they give the segment, and none holds a space
      or a `#`. */
  lemma LineTagsAreWords(line: string)
    requires StartsWith(line, '#')
    ensures Join(LineTags(line), ' ') == HashSegment(line)
    ensures forall w | w in LineTags(line) :: ' ' !in w && '#' !in w
  {
    SplitJoin(HashSegment(line), ' ');
    SplitKeepsAbsent(HashSegment(line), ' ', '#');
  }

  /** No global tag holds a space or a `#`, and only `#` lines contribute. */
  lemma {:induction false} GlobalTagsWellFormed(lines: seq<string>)
    ensures forall t | t in GlobalTags(lines) :: ' ' !in t && '#' !in t
    ensures (forall i | 0 <= i < |lines| :: !StartsWith(lines[i], '#')) ==> GlobalTags(lines) == []
    decreases |lines|
  {
    if lines != [] {
      var last := lines[|lines| - 1];
      var init := lines[..|lines| - 1];
      GlobalTagsWellFormed(init);
      if StartsWith(last, '#') {
        LineTagsAreWords(last);
      }
      assert forall i | 0 <= i < |init| :: init[i] == lines[i];
    }
  }

  /** The segment of a `#` line ends at the first `#` after the leading one. */
  lemma SegmentEndsAtHash(line: string, k: nat)
    requires StartsWith(line, '#') && 1 <= k <= |line|
    requires forall i :: 1 <= i < k ==> line[i] != '#'
    requires k == |line| || line[k] == '#'
    ensures HashSegment(line) == line[1..k]
  {
  }

  lemma WordsOf(line: string, k: nat, words: seq<string>)
    requires StartsWith(line, '#') && 1 <= k <= |line|
    requires forall i :: 1 <= i < k ==> line[i] != '#'
    requires k == |line| || line[k] == '#'
    requires |words| >= 1 && (forall w | w in words :: ' ' !in w)
    requires Join(words, ' ') == line[1..k]
    ensures LineTags(line) == words
  {
    SegmentEndsAtHash(line, k);
    JoinSplit(words, ' ');
  }

  /** Global tags are not deduplicated: with the lines `#w` and `#w v` the
      word `w` is collected twice. */
  lemma GlobalTagsKeepDuplicates(w: string, v: string)
    requires ' ' !in w && '#' !in w && ' ' !in v && '#' !in v
    ensures GlobalTags(["#" + w, "#" + w + " " + v]) == [w, w, v]
  {
    var l1, l2 := "#" + w, "#" + w + " " + v;
    assert l1[1..] == w;
    WordsOf(l1, |l1|, [w]);
    assert Join([w, v], ' ') == l2[1..];
    WordsOf(l2, |l2|, [w, v]);
    GlobalTagsSnoc([], l1);
    GlobalTagsSnoc([l1], l2);
    assert [] + [l1] == [l1] && [l1] + [l2] == [l1, l2];
  }

  /** Global tags are not filtered: from the line `#w #v` the space before
      the second `#` yields an empty tag, and `v` is not collected. */
  lemma GlobalTagsKeepEmptyWord(w: string, v: string)
    requires ' ' !in w && '#' !in w
    ensures GlobalTags(["#" + w + " #" + v]) == [w, ""]
  {
    var l := "#" + w + " #" + v;
    assert Join([w, ""], ' ') == l[1..|w| + 2];
    WordsOf(l, |w| + 2, [w, ""]);
    GlobalTagsSnoc([], l);
    assert [] + [l] == [l];
  }

  //
  // Pass 2: global defer and due dates
  //

  /** `line.match(/^M\(([^)]+)\)|^M(\S+)/)` for the marker `M`, as the
      captured date or null. */
  function AnchoredDate(line: string, marker: char): (d: Option<string>)
    ensures d.Some? <==> StartsWith(line, marker) && 1 < |line| && !IsSpace(line[1])
    ensures d.Some? ==> d.value != [] && d == Some(DateAt(line, 0, marker).value.capture)
  {
    match DateAt(line, 0, marker)
    case Some(m) => Some(m.capture)
    case None => None
  }

  /** The date of the last line that matches the anchored directive, or null. */
  function LastDate(lines: seq<string>, marker: char): Option<string>
    decreases |lines|
  {
    if lines == [] then None
    else if AnchoredDate(lines[|lines| - 1], marker).Some? then AnchoredDate(lines[|lines| - 1], marker)
    else LastDate(lines[..|lines| - 1], marker)
  }

  method GlobalDate(lines: seq<string>, marker: char) returns (date: Option<string>)
    ensures date == LastDate(lines, marker)
  {
    date := None;
    for i := 0 to |lines|
      invariant date == LastDate(lines[..i], marker)
    {
      assert lines[..i + 1][..i] == lines[..i];
      var match_ := DateAt(lines[i], 0, marker);
      if match_.Some? {
        date := Some(match_.value.capture);
      }
    }
    assert lines[..|lines|] == lines;
  }

  /** The line whose directive is the last to match, the later ones not matching. */
  ghost predicate LastMatchingLine(lines: seq<string>, marker: char, i: int, d: string) {
    && 0 <= i < |lines| && AnchoredDate(lines[i], marker) == Some(d)
    && forall j :: i < j < |lines| ==> AnchoredDate(lines[j], marker).None?
  }

  lemma {:induction false} LastDateFindsLine(lines: seq<string>, marker: char, d: string)
    requires LastDate(lines, marker) == Some(d)
    ensures exists i :: LastMatchingLine(lines, marker, i, d)
    decreases |lines|
  {
    var n := |lines| - 1;
    if AnchoredDate(lines[n], marker).Some? {
      assert LastMatchingLine(lines, marker, n, d);
    } else {
      var init := lines[..n];
      assert LastDate(init, marker) == Some(d);
      LastDateFindsLine(init, marker, d);
      var i :| LastMatchingLine(init, marker, i, d);
      assert lines[i] == init[i];
      forall j | i < j < |lines|
        ensures AnchoredDate(lines[j], marker).None?
      {
        if j < n {
          assert lines[j] == init[j];
        }
      }
      assert LastMatchingLine(lines, marker, i, d);
    }
  }

  lemma {:induction false} LineGivesLastDate(lines: seq<string>, marker: char, i: int, d: string)
    requires LastMatchingLine(lines, marker, i, d)
    ensures LastDate(lines, marker) == Some(d)
    decreases |lines|
  {
    var n := |lines| - 1;
    if i < n {
      var init := lines[..n];
      assert LastMatchingLine(init, marker, i, d);
      LineGivesLastDate(init, marker, i, d);
    }
  }

  /** Last match wins: the global date is `d` exactly when some line's
      directive gives `d` and no later line matches the directive at all. */
  lemma LastDateWins(lines: seq<string>, marker: char, d: string)
    ensures LastDate(lines, marker) == Some(d) <==> exists i :: LastMatchingLine(lines, marker, i, d)
  {
    if LastDate(lines, marker) == Some(d) {
      LastDateFindsLine(lines, marker, d);
    }
    if exists i :: LastMatchingLine(lines, marker, i, d) {
      var i :| LastMatchingLine(lines, marker, i, d);
      LineGivesLastDate(lines, marker, i, d);
    }
  }

  /** The global date is null exactly when no line matches the directive. */
  lemma {:induction false} LastDateAbsent(lines: seq<string>, marker: char)
    ensures LastDate(lines, marker).None? <==>
      forall i :: 0 <= i < |lines| ==> AnchoredDate(lines[i], marker).None?
    decreases |lines|
  {
    if lines != [] {
      var n := |lines| - 1;
      LastDateAbsent(lines[..n], marker);
      assert forall i | 0 <= i < n :: lines[..n][i] == lines[i];
    }
  }

  /** A global date, when present, is never the empty string. */
  lemma LastDateNonEmpty(lines: seq<string>, marker: char)
    ensures LastDate(lines, marker).Some? ==> LastDate(lines, marker).value != []
  {
    if LastDate(lines, marker).Some? {
      LastDateFindsLine(lines, marker, LastDate(lines, marker).value);
    }
  }

  //
  // Pass 3: one task per task line
  //

  /** The note is what follows the first `--` that has at least one character
      after it up to the end of the line; the rest of the line is what every
      later step sees. */
  function SplitNote(line: string): (r: (string, Option<string>))
    ensures r.1.Some? ==> line == r.0 + "--" + r.1.value && r.1.value != []
    ensures r.1.Some? ==> forall k :: 0 <= k < |r.1.value| ==> !IsLineTerminator(r.1.value[k])
    ensures r.1.None? ==> r.0 == line
    ensures forall q :: 0 <= q < |r.0| ==> NoteAt(line, q).None?
  {
    var body := CutBefore(Note, line);
    assert forall q :: 0 <= q < |body| ==> MatchAt(Note, line, q) == NoteAt(line, q);
    match FirstMatch(Note, line, 0)
    case None => (body, None)
    case Some(m) =>
      var i := m.start;
      assert NoteAt(line, i).Some?;
      assert line[i..i + 2] == "--";
      CutTwice(line, i, i + 2);
      (body, Some(m.capture))
  }

  /** The `while (tags_rx.exec(line))` loop. */
  method ScanTags(line: string) returns (tags: seq<string>)
    ensures tags == Captures(Tag, line, 0)
  {
    tags := [];
    var lastIndex := 0;
    var t := FirstMatch(Tag, line, lastIndex);
    while t.Some?
      invariant lastIndex <= |line|
      invariant t == FirstMatch(Tag, line, lastIndex)
      invariant tags + Captures(Tag, line, lastIndex) == Captures(Tag, line, 0)
      decreases |line| - lastIndex
    {
      assert Captures(Tag, line, lastIndex) == [t.value.capture] + Captures(Tag, line, t.value.end);
      AppendAssoc(tags, [t.value.capture], Captures(Tag, line, t.value.end));
      tags := tags + [t.value.capture];
      lastIndex := t.value.end;
      t := FirstMatch(Tag, line, lastIndex);
    }
  }

  /** The task's tags after each global tag not yet present is appended. */
  function MergeTags(tags: seq<string>, globals: seq<string>): seq<string>
    decreases |globals|
  {
    if globals == [] then tags
    else
      var merged := MergeTags(tags, globals[..|globals| - 1]);
      var gt := globals[|globals| - 1];
      if gt in merged then merged else merged + [gt]
  }

  method Merge(tags: seq<string>, globals: seq<string>) returns (merged: seq<string>)
    ensures merged == MergeTags(tags, globals)
  {
    merged := tags;
    for i := 0 to |globals|
      invariant merged == MergeTags(tags, globals[..i])
    {
      assert globals[..i + 1][..i] == globals[..i];
      var gt := globals[i];
      if gt !in merged {
        merged := merged + [gt];
      }
    }
    assert globals[..|globals|] == globals;
  }

  /** The local tags come first and unchanged; every global tag ends up in
      the list; nothing else does; and no appended global tag repeats an
      earlier entry. */
  lemma {:induction false} MergeTagsSpec(tags: seq<string>, globals: seq<string>)
    ensures var r := MergeTags(tags, globals);
      && |tags| <= |r| && r[..|tags|] == tags
      && (forall x | x in globals :: x in r)
      && (forall x | x in r :: x in tags || x in globals)
      && (forall i, j | |tags| <= i < |r| && 0 <= j < i :: r[j] != r[i])
    decreases |globals|
  {
    if globals != [] {
      var init := globals[..|globals| - 1];
      MergeTagsSpec(tags, init);
      assert forall x | x in init :: x in globals;
      assert globals == init + [globals[|globals| - 1]];
    }
  }

  /** The globals not yet `seen`, read front to back: each one is kept the
      first time it is not among what is already there. */
  function Fresh(seen: seq<string>, gs: seq<string>): seq<string>
    decreases |gs|
  {
    if gs == [] then []
    else if gs[0] in seen then Fresh(seen, gs[1..])
    else [gs[0]] + Fresh(seen + [gs[0]], gs[1..])
  }

  lemma {:induction false} FreshSnoc(seen: seq<string>, gs: seq<string>, g: string)
    ensures Fresh(seen, gs + [g]) ==
      Fresh(seen, gs) + (if g in seen + Fresh(seen, gs) then [] else [g])
    decreases |gs|
  {
    if gs == [] {
      assert [] + [g] == [g];
      assert seen + Fresh(seen, gs) == seen;
    } else {
      assert (gs + [g])[0] == gs[0];
      assert (gs + [g])[1..] == gs[1..] + [g];
      if gs[0] in seen {
        FreshSnoc(seen, gs[1..], g);
      } else {
        var seen' := seen + [gs[0]];
        FreshSnoc(seen', gs[1..], g);
        AppendAssoc(seen, [gs[0]], Fresh(seen', gs[1..]));
        AppendAssoc([gs[0]], Fresh(seen', gs[1..]), if g in seen' + Fresh(seen', gs[1..]) then [] else [g]);
      }
    }
  }

  /** The globals are appended in their collection order: the merged list is
      the local tags followed by the globals not yet present, front to back. */
  lemma {:induction false} MergeTagsInOrder(tags: seq<string>, globals: seq<string>)
    ensures MergeTags(tags, globals) == tags + Fresh(tags, globals)
    decreases |globals|
  {
    if globals == [] {
      assert tags + [] == tags;
    } else {
      var init, gt := globals[..|globals| - 1], globals[|globals| - 1];
      MergeTagsInOrder(tags, init);
      assert globals == init + [gt];
      FreshSnoc(tags, init, gt);
      AppendAssoc(tags, Fresh(tags, init), if gt in tags + Fresh(tags, init) then [] else [gt]);
    }
  }

  /** With no local tags and distinct globals, the task's tags are the
      globals in their collection order. */
  lemma DistinctGlobalsInOrder(a: string, b: string)
    requires a != b
    ensures MergeTags([], [a, b]) == [a, b]
  {
    MergeTagsInOrder([], [a, b]);
    assert [a, b][1..] == [b] && [b][1..] == [];
    assert b !in [] + [a];
    assert Fresh([] + [a] + [b], []) == [];
  }

  /** A task's defer (marker `@`) or due (marker `!`) date: the capture of the
      first match on the line, else the global value. */
  function TaskDate(body: string, marker: char, global: Option<string>): Option<string> {
    match FirstMatch(Date(marker), body, 0)
    case Some(m) => Some(m.capture)
    case None => global
  }

  /** The line cut before the first tag, then before the first defer date,
      then before the first due date. */
  function Title(body: string): string {
    CutBefore(Date('!'), CutBefore(Date('@'), CutBefore(Tag, body)))
  }

  /** The task the script builds from one task line. */
  function ParseLine(line: string, g: Globals): Task {
    var (body, note) := SplitNote(line);
    Task(
      Title(body),
      MergeTags(Captures(Tag, body, 0), g.tags),
      TaskDate(body, '@', g.defer),
      TaskDate(body, '!', g.due),
      note)
  }

  method ParseTask(line: string, g: Globals) returns (t: Task)
    ensures t == ParseLine(line, g)
  {
    var note: Option<string> := None;
    var noteMatch := FirstMatch(Note, line, 0);
    if noteMatch.Some? {
      note := Some(noteMatch.value.capture);
    }
    var body := CutBefore(Note, line);

    var tags := ScanTags(body);
    tags := Merge(tags, g.tags);

    var defer := g.defer;
    var deferMatch := FirstMatch(Date('@'), body, 0);
    if deferMatch.Some? {
      defer := Some(deferMatch.value.capture);
    }

    var due := g.due;
    var dueMatch := FirstMatch(Date('!'), body, 0);
    if dueMatch.Some? {
      due := Some(dueMatch.value.capture);
    }

    var title := CutBefore(Tag, body);
    title := CutBefore(Date('@'), title);
    title := CutBefore(Date('!'), title);

    t := Task(title, tags, defer, due, note);
  }

  /** The date a task gets is the capture of the leftmost match of its marker
      on the note-free line; only when there is none does the global value
      apply. */
  lemma TaskDateLeftmost(body: string, marker: char, global: Option<string>, q: nat)
    requires DateAt(body, q, marker).Some?
    requires forall k :: 0 <= k < q ==> DateAt(body, k, marker).None?
    ensures TaskDate(body, marker, global) == Some(DateAt(body, q, marker).value.capture)
  {
    var r := FirstMatch(Date(marker), body, 0);
    assert MatchAt(Date(marker), body, q).Some?;
  }

  lemma TaskDateInherited(body: string, marker: char, global: Option<string>)
    requires forall q :: 0 <= q < |body| ==> DateAt(body, q, marker).None?
    ensures TaskDate(body, marker, global) == global
  {
  }

  /** A parenthesised literal is taken verbatim, spaces and punctuation
      included: `!(5/12/2019)` gives the due date `5/12/2019`. */
  lemma ParenthesisedDate(prefix: string, marker: char, literal: string, global: Option<string>)
    requires marker !in prefix
    requires literal != [] && ')' !in literal
    ensures TaskDate(prefix + [marker] + "(" + literal + ")", marker, global) == Some(literal)
  {
    var s := prefix + [marker] + "(" + literal + ")";
    var q := |prefix|;
    assert s[q] == marker && s[q + 1] == '(' && s[q + 2] == literal[0];
    assert s[|s| - 1] == ')' && s[q + 2..|s| - 1] == literal;
    assert ParenForm(s, q) by {
      assert s[|s| - 1] in s[q + 2..];
    }
    assert forall k :: q + 2 <= k < |s| - 1 ==> s[k] == literal[k - q - 2];
    assert forall k :: 0 <= k < q ==> s[k] == prefix[k];
    FirstMatchAt(Date(marker), s, 0, q);
  }

  /** The title is a prefix of the note-free line and holds no tag, defer or
      due match; in particular no `#` in it is followed by a non-whitespace
      character. It is not trimmed. */
  lemma TitleIsClean(body: string)
    ensures var title := Title(body);
      && |title| <= |body| && title == body[..|title|]
      && (forall q :: MatchAt(Tag, title, q).None?)
      && (forall q :: MatchAt(Date('@'), title, q).None?)
      && (forall q :: MatchAt(Date('!'), title, q).None?)
      && (forall k :: 0 <= k < |title| - 1 ==> !(title[k] == '#' && !IsSpace(title[k + 1])))
  {
    var p1 := CutBefore(Tag, body);
    var p2 := CutBefore(Date('@'), p1);
    var title := CutBefore(Date('!'), p2);
    CutBeforeHasNoMatch(Tag, body);
    CutBeforeHasNoMatch(Date('@'), p1);
    CutBeforeHasNoMatch(Date('!'), p2);
    assert title == p1[..|title|];
    forall q | MatchAt(Tag, title, q).Some?
      ensures false
    {
      MatchInPrefix(Tag, p1, |title|, q);
    }
    forall q | MatchAt(Date('@'), title, q).Some?
      ensures false
    {
      MatchInPrefix(Date('@'), p2, |title|, q);
    }
    forall k | 0 <= k < |title| - 1
      ensures !(title[k] == '#' && !IsSpace(title[k + 1]))
    {
      assert MatchAt(Tag, title, k).None?;
    }
  }

  /** A field the script tests for truthiness (`if (defer)`, `if (note)`) is
      never the empty string when present, so the test is "not null". */
  lemma ParsedFieldsNonEmpty(line: string, g: Globals)
    requires g.defer.Some? ==> g.defer.value != []
    requires g.due.Some? ==> g.due.value != []
    ensures var t := ParseLine(line, g);
      && (t.defer.Some? ==> t.defer.value != [])
      && (t.due.Some? ==> t.due.value != [])
      && (t.note.Some? ==> t.note.value != [])
  {
  }

  /** With the globals the document itself yields, the same holds of every task. */
  lemma CollectedFieldsNonEmpty(lines: seq<string>, line: string)
    ensures var t := ParseLine(line, Collect(lines));
      && (t.defer.Some? ==> t.defer.value != [])
      && (t.due.Some? ==> t.due.value != [])
      && (t.note.Some? ==> t.note.value != [])
  {
    LastDateNonEmpty(lines, '@');
    LastDateNonEmpty(lines, '!');
    ParsedFieldsNonEmpty(line, Collect(lines));
  }

  /** No field of the task holds the character `c`. */
  predicate TaskLacks(t: Task, c: char) {
    && c !in t.title
    && (forall x | x in t.tags :: c !in x)
    && (t.defer.Some? ==> c !in t.defer.value)
    && (t.due.Some? ==> c !in t.due.value)
    && (t.note.Some? ==> c !in t.note.value)
  }

  /** No global value holds the character `c`. */
  predicate GlobalsLack(g: Globals, c: char) {
    && (forall x | x in g.tags :: c !in x)
    && (g.defer.Some? ==> c !in g.defer.value)
    && (g.due.Some? ==> c !in g.due.value)
  }

  /** Every field of a task is a piece of its line or a global value, so a
      character in neither is in no field. */
  lemma ParsedFieldsLack(line: string, g: Globals, c: char)
    requires c !in line && GlobalsLack(g, c)
    ensures TaskLacks(ParseLine(line, g), c)
  {
    var (body, note) := SplitNote(line);
    SliceKeepsAbsent(line, c, 0, |body|);
    var b1 := CutBefore(Tag, body);
    var b2 := CutBefore(Date('@'), b1);
    SliceKeepsAbsent(body, c, 0, |b1|);
    SliceKeepsAbsent(b1, c, 0, |b2|);
    SliceKeepsAbsent(b2, c, 0, |Title(body)|);
    CapturesKeepAbsent(Tag, body, 0, c);
    MergeTagsSpec(Captures(Tag, body, 0), g.tags);
    var dm := FirstMatch(Date('@'), body, 0);
    if dm.Some? {
      CaptureKeepsAbsent(Date('@'), body, dm.value.start, c);
    }
    var um := FirstMatch(Date('!'), body, 0);
    if um.Some? {
      CaptureKeepsAbsent(Date('!'), body, um.value.start, c);
    }
  }

  /** The global tags hold only characters of the document's lines. */
  lemma {:induction false} GlobalTagsLack(lines: seq<string>, c: char)
    requires forall l | l in lines :: c !in l
    ensures forall x | x in GlobalTags(lines) :: c !in x
    decreases |lines|
  {
    if lines != [] {
      var init, last := lines[..|lines| - 1], lines[|lines| - 1];
      assert forall l | l in init :: l in lines;
      assert last in lines;
      GlobalTagsLack(init, c);
      if StartsWith(last, '#') {
        var seg := HashSegment(last);
        SliceKeepsAbsent(last, c, 1, 1 + |seg|);
        SplitKeepsAbsent(seg, ' ', c);
      }
    }
  }

  /** The global dates hold only characters of the document's lines. */
  lemma LastDateLacks(lines: seq<string>, marker: char, c: char)
    requires forall l | l in lines :: c !in l
    ensures LastDate(lines, marker).Some? ==> c !in LastDate(lines, marker).value
  {
    if LastDate(lines, marker).Some? {
      var d := LastDate(lines, marker).value;
      LastDateFindsLine(lines, marker, d);
      var i :| LastMatchingLine(lines, marker, i, d);
      assert lines[i] in lines;
      CaptureKeepsAbsent(Date(marker), lines[i], 0, c);
    }
  }

  /** A character in no line of the document is in no field of its tasks. */
  lemma CollectedFieldsLack(lines: seq<string>, line: string, c: char)
    requires c !in line && forall l | l in lines :: c !in l
    ensures TaskLacks(ParseLine(line, Collect(lines)), c)
  {
    GlobalTagsLack(lines, c);
    LastDateLacks(lines, '@', c);
    LastDateLacks(lines, '!', c);
    ParsedFieldsLack(line, Collect(lines), c);
  }

  //
  // Pass 4: emission
  //

  /** The first line of a task's TaskPaper block: title, then tags, defer
      and due, each only when present. */
  function Heading(t: Task): string {
    "- " + t.title + " "
    + (if |t.tags| > 0 then "@tags(" + Join(t.tags, ',') + ") " else "")
    + (if t.defer.Some? then "@defer(" + t.defer.value + ") " else "")
    + (if t.due.Some? then "@due(" + t.due.value + ") " else "")
  }

  /** The TaskPaper block of one task: its heading, then the note on its own
      tab-indented line when present. */
  function Block(t: Task): string {
    Heading(t) + (if t.note.Some? then "\n\t" + t.note.value else "") + "\n"
  }

  /** A block is one line ended by a newline; with a note it is two lines,
      the second being the note indented by a tab. */
  predicate LinesOfBlock(b: string, note: Option<string>) {
    match note
    case None => |b| >= 1 && b[|b| - 1] == '\n' && '\n' !in b[..|b| - 1]
    case Some(n) =>
      && |b| >= |n| + 3 && '\n' !in n
      && '\n' !in b[..|b| - |n| - 3] && b[|b| - |n| - 3..] == "\n\t" + n + "\n"
  }

  /** A task whose fields hold no newline gives a block of one line, or two
      when it has a note. */
  lemma BlockLines(t: Task)
    requires TaskLacks(t, '\n')
    ensures LinesOfBlock(Block(t), t.note)
  {
    var head := Heading(t);
    assert '\n' !in head by {
      JoinKeepsAbsent(t.tags, ',', '\n');
    }
    var b := Block(t);
    if t.note.Some? {
      var n := t.note.value;
      assert b == head + ("\n\t" + n + "\n");
      assert b[..|b| - |n| - 3] == head;
    } else {
      assert b == head + "\n";
      assert b[..|b| - 1] == head;
    }
  }

  function Render(tasks: seq<Task>): string
    decreases |tasks|
  {
    if tasks == [] then "" else Render(tasks[..|tasks| - 1]) + Block(tasks[|tasks| - 1])
  }

  /** The tasks of a document, one per task line, in document order. */
  function TasksOf(lines: seq<string>, g: Globals): seq<Task>
    decreases |lines|
  {
    if lines == [] then []
    else
      var line := lines[|lines| - 1];
      TasksOf(lines[..|lines| - 1], g) + (if IsTaskLine(line) then [ParseLine(line, g)] else [])
  }

  lemma TasksOfStep(lines: seq<string>, i: nat, g: Globals)
    requires i < |lines|
    ensures IsTaskLine(lines[i]) ==> TasksOf(lines[..i + 1], g) == TasksOf(lines[..i], g) + [ParseLine(lines[i], g)]
    ensures !IsTaskLine(lines[i]) ==> TasksOf(lines[..i + 1], g) == TasksOf(lines[..i], g)
  {
    assert lines[..i + 1][..i] == lines[..i];
    assert TasksOf(lines[..i], g) + [] == TasksOf(lines[..i], g);
  }

  lemma RenderSnoc(tasks: seq<Task>, t: Task)
    ensures Render(tasks + [t]) == Render(tasks) + Block(t)
  {
    assert (tasks + [t])[..|tasks|] == tasks;
  }

  lemma {:induction false} RenderAppend(a: seq<Task>, b: seq<Task>)
    ensures Render(a + b) == Render(a) + Render(b)
    decreases |b|
  {
    if b == [] {
      assert a + b == a;
    } else {
      var b' := b[..|b| - 1];
      DropLastOfAppend(a, b);
      RenderAppend(a, b');
      AppendAssoc(Render(a), Render(b'), Block(b[|b| - 1]));
    }
  }

  lemma TasksOfSnoc(lines: seq<string>, line: string, g: Globals)
    ensures TasksOf(lines + [line], g)
      == TasksOf(lines, g) + (if IsTaskLine(line) then [ParseLine(line, g)] else [])
  {
    assert (lines + [line])[..|lines|] == lines;
  }

  lemma {:induction false} TasksOfAppend(a: seq<string>, b: seq<string>, g: Globals)
    ensures TasksOf(a + b, g) == TasksOf(a, g) + TasksOf(b, g)
    decreases |b|
  {
    if b == [] {
      assert a + b == a;
    } else {
      var b', last := b[..|b| - 1], b[|b| - 1];
      DropLastOfAppend(a, b);
      TasksOfAppend(a, b', g);
      AppendAssoc(TasksOf(a, g), TasksOf(b', g), if IsTaskLine(last) then [ParseLine(last, g)] else []);
    }
  }

  /** The output is the blocks of the task lines, in document order: one
      block for a task line, nothing for any other line, and the output of a
      document is that of its first part followed by that of the rest. */
  lemma OutputInDocumentOrder(a: seq<string>, b: seq<string>, line: string, g: Globals)
    ensures Render(TasksOf(a + b, g)) == Render(TasksOf(a, g)) + Render(TasksOf(b, g))
    ensures Render(TasksOf([line], g)) == if IsTaskLine(line) then Block(ParseLine(line, g)) else ""
  {
    TasksOfAppend(a, b, g);
    RenderAppend(TasksOf(a, g), TasksOf(b, g));
    TasksOfSnoc([], line, g);
    assert [] + [line] == [line];
    if IsTaskLine(line) {
      RenderSnoc([], ParseLine(line, g));
      assert [] + [ParseLine(line, g)] == [ParseLine(line, g)];
    }
  }

  /** A document without task lines (in particular the empty draft, whose
      single line is empty) converts to the empty string. */
  lemma NoTaskLinesNoOutput(lines: seq<string>)
    requires forall i :: 0 <= i < |lines| ==> !IsTaskLine(lines[i])
    ensures ConvertLines(lines) == ""
    ensures ConvertLines(Split("", '\n')) == ""
  {
    TasksOfEmpty(lines, Collect(lines));
    assert IndexOf("", '\n', 0) == 0;
    assert Split("", '\n') == [""];
    TasksOfEmpty([""], Collect([""]));
  }

  lemma {:induction false} TasksOfEmpty(lines: seq<string>, g: Globals)
    requires forall i :: 0 <= i < |lines| ==> !IsTaskLine(lines[i])
    ensures TasksOf(lines, g) == []
    decreases |lines|
  {
    if lines != [] {
      var n := |lines| - 1;
      assert forall i :: 0 <= i < n ==> lines[..n][i] == lines[i];
      TasksOfEmpty(lines[..n], g);
    }
  }

  /** A task line with no `#`, `@`, `!` and no `--`, in a document without
      global directives, becomes the bare block `- <line> \n`: no tags,
      dates or note, and the title is the whole line, untrimmed. */
  lemma PlainLineBlock(line: string)
    requires IsTaskLine(line)
    requires '#' !in line && '@' !in line && '!' !in line
    requires forall k :: 0 <= k < |line| - 1 ==> !(line[k] == '-' && line[k + 1] == '-')
    ensures Block(ParseLine(line, Globals([], None, None))) == "- " + line + " \n"
  {
    var t := ParseLine(line, Globals([], None, None));
    assert FirstMatch(Note, line, 0).None? by {
      assert forall q :: MatchAt(Note, line, q).None?;
    }
    NoMarkerNoMatch(Tag, line, 0);
    NoMarkerNoMatch(Date('@'), line, 0);
    NoMarkerNoMatch(Date('!'), line, 0);
    assert t.title == line;
    assert t.tags == [];
    assert t.defer.None? && t.due.None? && t.note.None?;
  }

  /** The note of a line `B--n` whose part `B` has no dash is `n`. */
  lemma NoteAfterDashFreeBody(body: string, note: string)
    requires '-' !in body
    requires note != [] && forall k :: 0 <= k < |note| ==> !IsLineTerminator(note[k])
    ensures SplitNote(body + "--" + note) == (body, Some(note))
  {
    var line := body + "--" + note;
    var n := |body|;
    assert NoteAt(line, n).Some?;
    FirstMatchAt(Note, line, 0, n);
    assert line[..n] == body;
  }

  /** In `T #g ` with `T` free of `#` and `g` a non-empty run without spaces,
      the only tag is `g` and the text before it is `T `. */
  lemma SingleTag(title: string, tag: string)
    requires '#' !in title
    requires tag != [] && NoSpace(tag)
    ensures Captures(Tag, title + " #" + tag + " ", 0) == [tag]
    ensures CutBefore(Tag, title + " #" + tag + " ") == title + " "
  {
    var body := title + " #" + tag + " ";
    var n := |body|;
    var q := |title| + 1;
    assert body[q] == '#' && body[q + 1] == tag[0];
    assert forall k :: 0 <= k < q ==> body[k] != '#';
    FirstMatchAt(Tag, body, 0, q);
    var m := TagAt(body, q).value;
    assert m.end == n - 1 by {
      assert body[n - 1] == ' ';
      assert forall k :: q + 1 <= k < n - 1 ==> body[k] == tag[k - q - 1];
    }
    assert body[q + 1..n - 1] == tag;
    assert FirstMatch(Tag, body, n - 1).None?;
    assert body[..q] == title + " ";
  }

  /** A `#` followed by a run of non-whitespace that ends at whitespace or
      at the end of the line is a tag match capturing that run. */
  lemma TagRunAt(s: string, q: nat, tag: string)
    requires tag != [] && NoSpace(tag)
    requires q + 1 + |tag| <= |s| && s[q] == '#' && s[q + 1..q + 1 + |tag|] == tag
    requires q + 1 + |tag| == |s| || IsSpace(s[q + 1 + |tag|])
    ensures TagAt(s, q) == Some(Match(q, q + 1 + |tag|, tag))
  {
    assert s[q + 1] == tag[0];
    var e := q + 1 + |tag|;
    assert forall k :: q + 1 <= k < e ==> s[k] == tag[k - q - 1];
  }

  /** The next tag after `from` is the run after the first `#` there. */
  lemma NextTag(s: string, from: nat, q: nat, tag: string)
    requires tag != [] && NoSpace(tag)
    requires from <= q && q + 1 + |tag| <= |s|
    requires forall k :: from <= k < q ==> s[k] != '#'
    requires s[q] == '#' && s[q + 1..q + 1 + |tag|] == tag
    requires q + 1 + |tag| == |s| || IsSpace(s[q + 1 + |tag|])
    ensures FirstMatch(Tag, s, from) == Some(Match(q, q + 1 + |tag|, tag))
  {
    TagRunAt(s, q, tag);
    FirstMatchAt(Tag, s, from, q);
  }

  /** Where the two tags of `T #g #g` sit. */
  lemma TwoTagsLayout(title: string, tag: string)
    requires '#' !in title
    ensures var s := title + " #" + tag + " #" + tag;
      var q1 := |title| + 1;
      var e1 := q1 + 1 + |tag|;
      && |s| == e1 + 2 + |tag|
      && s[q1] == '#' && s[q1 + 1..e1] == tag && s[e1] == ' '
      && s[e1 + 1] == '#' && s[e1 + 2..] == tag
      && forall k :: 0 <= k < q1 ==> s[k] != '#'
  {
    var a := title + " #";
    var s := a + tag + (" #" + tag);
    assert s == title + " #" + tag + " #" + tag;
    assert forall k :: 0 <= k < |title| ==> s[k] == title[k];
  }

  /** Two successive matches, the second ending the string, are all the loop collects. */
  lemma CapturesOfTwo(p: Pattern, s: string, m1: Match, m2: Match)
    requires FirstMatch(p, s, 0) == Some(m1) && m1.end <= |s|
    requires FirstMatch(p, s, m1.end) == Some(m2) && m2.end == |s|
    ensures Captures(p, s, 0) == [m1.capture, m2.capture]
  {
    assert Captures(p, s, |s|) == [];
  }

  /** Local tags are not deduplicated: in `T #g #g` the tag `g` is collected twice. */
  lemma LocalTagsKeepDuplicates(title: string, tag: string)
    requires '#' !in title
    requires tag != [] && NoSpace(tag)
    ensures Captures(Tag, title + " #" + tag + " #" + tag, 0) == [tag, tag]
  {
    var s := title + " #" + tag + " #" + tag;
    var q1 := |title| + 1;
    var e1 := q1 + 1 + |tag|;
    TwoTagsLayout(title, tag);
    NextTag(s, 0, q1, tag);
    NextTag(s, e1, e1 + 1, tag);
    CapturesOfTwo(Tag, s, Match(q1, e1, tag), Match(e1 + 1, |s|, tag));
  }

  /** The same line as a task: its tags begin with `g` twice, whatever the
      globals add after them. */
  lemma TaskKeepsDuplicateTags(title: string, tag: string, g: Globals)
    requires '#' !in title && '-' !in title
    requires tag != [] && NoSpace(tag) && '-' !in tag
    ensures var tags := ParseLine(title + " #" + tag + " #" + tag, g).tags;
      |tags| >= 2 && tags[..2] == [tag, tag]
  {
    var line := title + " #" + tag + " #" + tag;
    assert '-' !in line;
    NoMarkerNoMatch(Note, line, 0);
    LocalTagsKeepDuplicates(title, tag);
    MergeTagsSpec([tag, tag], g.tags);
  }

  /** Every tag written as a word in the note-free part of a task line is
      among the task's tags. */
  lemma TaskCollectsWordTags(line: string, g: Globals, q: nat)
    requires q < |SplitNote(line).0| && TagAt(SplitNote(line).0, q).Some?
    requires q == 0 || IsSpace(SplitNote(line).0[q - 1])
    ensures TagAt(SplitNote(line).0, q).value.capture in ParseLine(line, g).tags
  {
    var body := SplitNote(line).0;
    var local := Captures(Tag, body, 0);
    WordTagCollected(body, 0, q);
    MergeTagsSpec(local, g.tags);
    var tags := MergeTags(local, g.tags);
    assert tags[..|local|] == local;
    assert forall x | x in local :: x in tags;
  }

  /** A worked line `T #g --n`: the title keeps the space before the tag
      (it is not trimmed), the tag is `g` and the note is `n`. */
  lemma TaggedLineWithNote(title: string, tag: string, note: string)
    requires '#' !in title && '@' !in title && '!' !in title && '-' !in title
    requires tag != [] && NoSpace(tag) && '@' !in tag && '!' !in tag && '-' !in tag
    requires note != [] && forall k :: 0 <= k < |note| ==> !IsLineTerminator(note[k])
    ensures var t := ParseLine(title + " #" + tag + " --" + note, Globals([], None, None));
      && t.title == title + " " && t.tags == [tag] && t.defer.None? && t.due.None?
      && t.note == Some(note)
  {
    var body := title + " #" + tag + " ";
    assert title + " #" + tag + " --" + note == body + "--" + note;
    assert '-' !in body && '@' !in body && '!' !in body;
    NoteAfterDashFreeBody(body, note);
    SingleTag(title, tag);
    assert MergeTags([tag], []) == [tag];
    NoMarkerNoMatch(Date('@'), title + " ", 0);
    NoMarkerNoMatch(Date('!'), title + " ", 0);
    NoMarkerNoMatch(Date('@'), body, 0);
    NoMarkerNoMatch(Date('!'), body, 0);
  }

  function Collect(lines: seq<string>): Globals {
    Globals(GlobalTags(lines), LastDate(lines, '@'), LastDate(lines, '!'))
  }

  /** The TaskPaper text of a document given as its lines. */
  function ConvertLines(lines: seq<string>): string {
    Render(TasksOf(lines, Collect(lines)))
  }

  /** Every task of a draft is emitted as one line, or two when it has a
      note: the fields of a task are pieces of lines of the draft, which
      hold no newline. */
  lemma DraftBlockLines(content: string, i: nat)
    requires i < |Split(content, '\n')|
    ensures var lines := Split(content, '\n');
      var t := ParseLine(lines[i], Collect(lines));
      LinesOfBlock(Block(t), t.note)
  {
    var lines := Split(content, '\n');
    assert lines[i] in lines;
    CollectedFieldsLack(lines, lines[i], '\n');
    BlockLines(ParseLine(lines[i], Collect(lines)));
  }

  /** Lines 165-184: the block of one task, built field by field and
      appended to the output. */
  method AppendBlock(taskPaper: string, t: Task) returns (out: string)
    ensures out == taskPaper + Block(t)
  {
    var block := "- " + t.title + " ";
    if |t.tags| > 0 {
      var tagStr := Join(t.tags, ',');
      block := block + ("@tags(" + tagStr + ") ");
    } else {
      assert block + "" == block;
    }
    if t.defer.Some? {
      block := block + ("@defer(" + t.defer.value + ") ");
    } else {
      assert block + "" == block;
    }
    if t.due.Some? {
      block := block + ("@due(" + t.due.value + ") ");
    } else {
      assert block + "" == block;
    }
    if t.note.Some? {
      block := block + ("\n\t" + t.note.value);
    } else {
      assert block + "" == block;
    }
    block := block + "\n";
    out := taskPaper + block;
  }

  /** The whole script between reading the draft and handing the text over. */
  method Convert(content: string) returns (taskPaper: string)
    ensures taskPaper == ConvertLines(Split(content, '\n'))
  {
    var lines := Split(content, '\n');
    var globalTags := CollectGlobalTags(lines);
    var globalDeferDate := GlobalDate(lines, '@');
    var globalDueDate := GlobalDate(lines, '!');
    var g := Globals(globalTags, globalDeferDate, globalDueDate);

    taskPaper := "";
    for i := 0 to |lines|
      invariant taskPaper == Render(TasksOf(lines[..i], g))
    {
      var line := lines[i];
      TasksOfStep(lines, i, g);
      if StartsWith(line, '#') || StartsWith(line, '@') || StartsWith(line, '!') {
        continue;
      }
      if |line| == 0 {
        continue;
      }
      var t := ParseTask(line, g);
      RenderSnoc(TasksOf(lines[..i], g), t);
      taskPaper := AppendBlock(taskPaper, t);
    }
    assert lines[..|lines|] == lines;
  }
}
