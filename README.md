# Clever OmniFocus Tasks — a Dafny model of the shorthand-to-TaskPaper converter

The Drafts action `OmniFocus.js` turns a draft written in a compact shorthand
(one task per line: `title @defer !due #tag1 #tag2 --note`, plus global
`#tags`, `@defer` and `!due` lines) into TaskPaper text, which it hands to
OmniFocus in one paste. This project models the converter, the script
between reading the draft and the hand-off (`OmniFocus.js` lines 53-185), and
proves what it computes.

The model keeps the script's shape:

- `js_text.dfy` (module `JsText`): the JavaScript built-ins the script leans
  on: the `\s` whitespace class (ECMAScript WhiteSpace and LineTerminator),
  the line terminators `.` refuses, `split` on a one-character string and
  `join`. A `null`-or-string value is `Option<string>`.
- `patterns.dfy` (module `Patterns`): the four fixed regular expressions
  (`#(\S+)`, `@\(([^)]+)\)|@(\S+)`, the same with `!`, and `--(.+)$`) as
  matchers tried at one position, the leftmost match that `match`/`exec`
  find, `split(rx)[0]` as "the text before the leftmost match", and the
  captures a `while (rx.exec(s))` loop collects.
- `omnifocus.dfy` (module `OmniFocus`): the four passes. Each loop of the
  script is a method with that loop (`CollectGlobalTags`, `GlobalDate`,
  `ScanTags`, `Merge`, `Convert`), and so is each straight-line step of the
  task loop (`ParseTask`, `AppendBlock`). Each method's postcondition
  equates its result with a function of its inputs (`GlobalTags`,
  `LastDate`, `Captures`, `MergeTags`, `ParseLine`, `Block`,
  `ConvertLines`). The properties of the conversion are lemmas about those
  functions.

The model follows the script as written, including where a reader might
expect otherwise:

- Global tags are neither deduplicated nor cleaned. The comment at
  `OmniFocus.js` line 56 says each word on a `#` line becomes a tag, and the
  code takes that literally: every word of the line's segment, split on
  single spaces, is kept, empty words and repeats included
  (`GlobalTagsKeepDuplicates`, `GlobalTagsKeepEmptyWord`).
- Local tags keep their duplicates: `T #g #g` gives the tags `g, g`
  (`LocalTagsKeepDuplicates`). Only global tags already present are
  skipped, and the rest are appended in their collection order
  (`MergeTagsInOrder`).
- The title is not trimmed. `Asparagus #shopping --n` has the title
  `"Asparagus "` (`TaggedLineWithNote`). The note is not trimmed either.
- `.` does not match a carriage return and `$` (without the `m` flag) only
  matches at the end. So in a draft with CRLF line ends, where every line
  keeps its `\r` after `split("\n")`, no line has a note.
- A task date is taken from the first `@`/`!` match on the line with the
  note removed. The title is cut before the first tag, then before the first
  defer match in what is left, then before the first due match in what is
  left.

## Model

| member | source | states |
|---|---|---|
| JsText.Split | OmniFocus.js:53 | `split` on one character: at least one piece; no piece holds the separator; more than one piece exactly when the separator occurs; the first piece is the text up to the first separator |
| JsText.SplitJoin | OmniFocus.js:53 | joining the pieces of a split with the separator gives back the text: splitting the draft into lines loses nothing |
| JsText.JoinSplit | OmniFocus.js:61 | splitting the join of separator-free pieces gives back the pieces |
| Patterns.TagAt | OmniFocus.js:121 | `#(\S+)` matches at a position exactly when `#` is followed by a non-whitespace character; the capture is the maximal non-whitespace run after it |
| Patterns.DateAt | OmniFocus.js:135 | `M\(([^)]+)\)\|M(\S+)` matches exactly when the marker is followed by a non-whitespace character; with `(`, at least one character and a `)` later, the capture is the text up to the first `)`; otherwise it is the maximal non-whitespace run after the marker |
| Patterns.NoteAt | OmniFocus.js:112 | `--(.+)$` matches at a position exactly when `--` is followed by at least one character and no line terminator until the end; the capture is the rest of the string |
| Patterns.FirstMatch | OmniFocus.js:136 | the match `String.prototype.match` returns is the leftmost one: no match starts before it, and there is none at all when it returns null |
| Patterns.FirstMatchAt | OmniFocus.js:149 | a match at a position with no match before it is the one `match` returns |
| Patterns.CutBefore | OmniFocus.js:117 | `split(rx)[0]` is the longest prefix at none of whose positions a match starts |
| Patterns.CutBeforeHasNoMatch | OmniFocus.js:160-162 | after `split(rx)[0]` with a tag or date pattern the remaining text holds no match of that pattern |
| Patterns.MatchInPrefix | OmniFocus.js:160-162 | a tag or date match inside a prefix is a match in the whole line |
| Patterns.TagCapturesWellFormed | OmniFocus.js:121-124 | every tag the `exec` loop collects is non-empty and free of whitespace |
| Patterns.WordTagCollected | OmniFocus.js:120-124 | every tag written as a word (at the search start or after whitespace) is among the captures the `exec` loop collects |
| Patterns.CollectedTagWritten | OmniFocus.js:120-124 | conversely, every capture the loop collects is the tag written at some position at or after the search start |
| OmniFocus.HashSegment | OmniFocus.js:60 | `line.split("#")[1]` on a `#` line is the text between the leading `#` and the next `#` or the end of the line |
| OmniFocus.CollectGlobalTags | OmniFocus.js:57-66 | the nested loop collects exactly `GlobalTags(lines)`: the words of every `#` line, in document order |
| OmniFocus.GlobalTagsAppend | OmniFocus.js:58-65 | the global tags of a document are those of its first part followed by those of the rest |
| OmniFocus.LineTagsAreWords | OmniFocus.js:60-64 | a `#` line contributes exactly the space-separated words of its segment: joined with spaces they give the segment back, and none holds a space or a `#` |
| OmniFocus.GlobalTagsWellFormed | OmniFocus.js:57-66 | no global tag holds a space or a `#`; a document without `#` lines has no global tags |
| OmniFocus.GlobalTagsKeepDuplicates | OmniFocus.js:62-64 | with the lines `#w` and `#w v`, the word `w` is collected twice |
| OmniFocus.GlobalTagsKeepEmptyWord | OmniFocus.js:60-64 | from `#w #v` the global tags are `w` and the empty word; `v` is not collected |
| OmniFocus.AnchoredDate | OmniFocus.js:71-80 | a global directive gives a date exactly when the line starts with the marker followed by a non-whitespace character, and that date is non-empty |
| OmniFocus.GlobalDate | OmniFocus.js:69-96 | the loop that overwrites the global date returns `LastDate(lines, marker)` |
| OmniFocus.LastDateWins | OmniFocus.js:69-81 | the global date is `d` exactly when some line's directive gives `d` and no later line's directive matches |
| OmniFocus.LastDateAbsent | OmniFocus.js:69-96 | the global date stays null exactly when no line matches the directive |
| OmniFocus.LastDateNonEmpty | OmniFocus.js:73-79 | a global date, when set, is never the empty string |
| OmniFocus.SplitNote | OmniFocus.js:111-117 | with a note, the line is the remaining text, `--` and the non-empty, terminator-free note; without one, the line is unchanged; no note match starts in the remaining text |
| OmniFocus.NoteAfterDashFreeBody | OmniFocus.js:111-117 | for a line `B--n` whose `B` has no dash and whose `n` is non-empty without line terminators, the note is `n` and the rest is `B` |
| OmniFocus.ScanTags | OmniFocus.js:120-124 | the `while (tags_rx.exec(line))` loop collects exactly `Captures(Tag, line, 0)` |
| OmniFocus.Merge | OmniFocus.js:127-131 | the merge loop returns `MergeTags(tags, globals)` |
| OmniFocus.MergeTagsSpec | OmniFocus.js:127-131 | the local tags stay first and unchanged; every global tag ends up in the list; nothing else does; no appended global tag repeats an earlier entry |
| OmniFocus.MergeTagsInOrder | OmniFocus.js:127-131 | the merged list is the local tags followed by the globals not yet present, read front to back, each kept at its first occurrence: the globals keep their collection order |
| OmniFocus.DistinctGlobalsInOrder | OmniFocus.js:127-131 | with no local tags, the distinct globals `a, b` come out as `a, b`, not `b, a` |
| OmniFocus.LocalTagsKeepDuplicates | OmniFocus.js:120-124 | the `exec` loop does not deduplicate: in `T #g #g` it collects `g` twice |
| OmniFocus.TaskKeepsDuplicateTags | OmniFocus.js:120-131 | the task built from `T #g #g` has tags starting with `g, g`, whatever the globals add |
| OmniFocus.TaskCollectsWordTags | OmniFocus.js:110-131 | every tag written as a word in the note-free part of a task line is among the task's tags |
| OmniFocus.TaskDateLeftmost | OmniFocus.js:134-157 | when the line has a date match, the task's date is the capture of the leftmost one, whatever the global value |
| OmniFocus.TaskDateInherited | OmniFocus.js:134-157 | when the line has no date match, the task inherits the global value |
| OmniFocus.ParenthesisedDate | OmniFocus.js:134-157 | a parenthesised literal (no `)` inside) after the first marker is the task's date verbatim, spaces and punctuation included |
| OmniFocus.ParseTask | OmniFocus.js:110-162 | the per-line steps (note, tags, merge, defer, due, title cuts) build exactly `ParseLine(line, globals)` |
| OmniFocus.TitleIsClean | OmniFocus.js:159-162 | the title is a prefix of the note-free line and holds no tag, defer or due match; no `#` in it is followed by a non-whitespace character |
| OmniFocus.SingleTag | OmniFocus.js:120-124 | in `T #g ` with `T` free of `#`, the only tag is `g` and the text before it is `T ` |
| OmniFocus.TaggedLineWithNote | OmniFocus.js:110-162 | the line `T #g --n` gives title `T ` (untrimmed), tags `[g]`, no dates and note `n` |
| OmniFocus.ParsedFieldsNonEmpty | OmniFocus.js:172-182 | a present defer, due or note value is never empty, so `if (defer)` and `if (note)` test for null only |
| Patterns.CapturesKeepAbsent | OmniFocus.js:120-124 | every capture the `exec` loop collects is a piece of the line, so a character absent from the line is absent from every tag |
| OmniFocus.ParsedFieldsLack | OmniFocus.js:110-162 | every field of a task is a piece of its line or a global value: a character in neither is in no field |
| OmniFocus.GlobalTagsLack | OmniFocus.js:57-66 | the global tags hold only characters of the document's lines |
| OmniFocus.LastDateLacks | OmniFocus.js:69-96 | a global date holds only characters of the document's lines |
| OmniFocus.CollectedFieldsLack | OmniFocus.js:53-162 | a character in no line of the document is in no field of any task built from it |
| OmniFocus.CollectedFieldsNonEmpty | OmniFocus.js:172-182 | a present defer, due or note value is never empty, with the globals the document itself yields |
| OmniFocus.AppendBlock | OmniFocus.js:165-184 | appending field by field adds exactly `Block(t)`: `- title `, then `@tags(...) `, `@defer(...) `, `@due(...) ` when present, then the note on a tab-indented line, then a newline |
| OmniFocus.BlockLines | OmniFocus.js:165-184 | a task whose fields hold no newline gives one line ended by a newline, or, with a note, that line followed by the note on a tab-indented line ended by a newline |
| OmniFocus.DraftBlockLines | OmniFocus.js:53-184 | for every line of any draft, the block of its task has that one- or two-line shape, since no field of a task can hold a newline |
| OmniFocus.PlainLineBlock | OmniFocus.js:164-184 | a task line with no `#`, `@`, `!` or `--` and no globals gives the bare block `- <line> \n` |
| OmniFocus.OutputInDocumentOrder | OmniFocus.js:101-185 | the output is one block per task line and nothing for other lines, in document order |
| OmniFocus.NoTaskLinesNoOutput | OmniFocus.js:101-108 | a document without task lines, the empty draft included, converts to the empty string |
| OmniFocus.Convert | OmniFocus.js:53-185 | the whole script from the draft text to the TaskPaper string computes `ConvertLines(Split(content, "\n"))` |

## Left out

- Reading `draft.content` (line 53): the draft text is the parameter of `Convert`.
- The hand-off (lines 187-194): building the `omnifocus://x-callback-url/paste` URL with the text as the URL-encoded `content` parameter, `cb.open()` and `context.fail()`. These are calls into the host application. The model ends with the TaskPaper string.
- Date strings are not interpreted; they are passed through verbatim, as the script does.
- The whitespace class is the ECMAScript WhiteSpace and LineTerminator set, with the space separators (Zs) written out as a fixed list; it does not follow later Unicode versions.
- Strings are sequences of Unicode scalar values, while JavaScript strings are UTF-16 code units. No pattern here distinguishes the two, because surrogate halves are neither whitespace nor line terminators.
- The regular expressions are modelled one by one, not as a general engine. The `i` flag is dropped because none of the patterns contains a letter.
- The `lastIndex` state of the global tag regex is the loop variable of `ScanTags`. The later `split` builds its own copy of the regex, so `lastIndex` does not matter there, and the model does not carry it further.
