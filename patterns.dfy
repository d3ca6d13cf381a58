/**
 The four fixed regular expressions of the converter, each written out as a
 matcher tried at one position, together with the three ways the script
 uses them: `s.match(rx)` (leftmost match), `s.split(rx)[0]` (text before the
 leftmost match) and a `while (rx.exec(s))` loop over a global regex.

   Tag        `#(\S+)`
   Date('@')  `@\(([^)]+)\)|@(\S+)`   (the `i` flag changes nothing here)
   Date('!')  `!\(([^)]+)\)|!(\S+)`
   Note       `--(.+)$`
 The anchored forms `^@...|^@...` and `^!...|^!...` are Date tried at 0 only.
 */
module Patterns {
  import opened JsText

  /** A successful match: where it starts, where it ends (exclusive) and the
      text of the capture group that participated. */
  datatype Match = Match(start: nat, end: nat, capture: string)

  datatype Pattern = Tag | Date(marker: char) | Note

  /** `#(\S+)` at `q`: a `#` followed by the greedy, non-empty run of
      non-whitespace characters after it. */
  function TagAt(s: string, q: nat): (r: Option<Match>)
    ensures r.Some? <==> q + 1 < |s| && s[q] == '#' && !IsSpace(s[q + 1])
    ensures r.Some? ==>
      && r.value.start == q && q + 1 < r.value.end <= |s|
      && r.value.capture == s[q + 1..r.value.end]
      && NoSpace(r.value.capture)
      && (r.value.end == |s| || IsSpace(s[r.value.end]))
  {
    if q + 1 < |s| && s[q] == '#' && !IsSpace(s[q + 1]) then
      var e := Scan(s, q + 1, IsSpace);
      Some(Match(q, e, s[q + 1..e]))
    else
      None
  }

  /** `marker` at `q` followed by a parenthesised literal: `(`, at least one
      character, and the first `)` after it. */
  predicate ParenForm(s: string, q: nat) {
    q + 2 < |s| && s[q + 1] == '(' && s[q + 2] != ')' && ')' in s[q + 2..]
  }

  /** `M\(([^)]+)\)|M(\S+)` at `q` for the marker `M`: the parenthesised
      alternative is tried first; when it fails the bare alternative takes the
      greedy run of non-whitespace after the marker (which may then start with
      `(`). */
  function DateAt(s: string, q: nat, marker: char): (r: Option<Match>)
    ensures r.Some? <==> q + 1 < |s| && s[q] == marker && !IsSpace(s[q + 1])
    ensures r.Some? && ParenForm(s, q) ==>
      && r.value.start == q && q + 3 < r.value.end <= |s|
      && s[r.value.end - 1] == ')'
      && r.value.capture == s[q + 2..r.value.end - 1]
      && ')' !in r.value.capture
    ensures r.Some? && !ParenForm(s, q) ==>
      && r.value.start == q && q + 1 < r.value.end <= |s|
      && r.value.capture == s[q + 1..r.value.end]
      && NoSpace(r.value.capture)
      && (r.value.end == |s| || IsSpace(s[r.value.end]))
  {
    if q < |s| && s[q] == marker then
      var close := if q + 2 <= |s| then IndexOf(s, ')', q + 2) else |s|;
      if q + 2 < |s| && s[q + 1] == '(' && q + 2 < close < |s| then
        Some(Match(q, close + 1, s[q + 2..close]))
      else if q + 1 < |s| && !IsSpace(s[q + 1]) then
        var e := Scan(s, q + 1, IsSpace);
        Some(Match(q, e, s[q + 1..e]))
      else
        None
    else
      None
  }

  /** `--(.+)$` at `q`: two dashes, then at least one character, and no line
      terminator up to the end of the string (`$` without the `m` flag). */
  function NoteAt(s: string, q: nat): (r: Option<Match>)
    ensures r.Some? <==>
      && q + 2 < |s| && s[q] == '-' && s[q + 1] == '-'
      && forall k :: q + 2 <= k < |s| ==> !IsLineTerminator(s[k])
    ensures r.Some? ==> r.value == Match(q, |s|, s[q + 2..])
  {
    if q + 2 < |s| && s[q] == '-' && s[q + 1] == '-' && Scan(s, q + 2, IsLineTerminator) == |s| then
      Some(Match(q, |s|, s[q + 2..]))
    else
      None
  }

  function MatchAt(p: Pattern, s: string, q: nat): (r: Option<Match>)
    ensures r.Some? ==> r.value.start == q && q < r.value.end <= |s| && r.value.capture != []
  {
    match p
    case Tag => TagAt(s, q)
    case Date(marker) => DateAt(s, q, marker)
    case Note => NoteAt(s, q)
  }

  /** The leftmost match at or after `from`, as `exec` finds it. */
  function FirstMatch(p: Pattern, s: string, from: nat): (r: Option<Match>)
    requires from <= |s|
    ensures r.None? ==> forall q :: from <= q < |s| ==> MatchAt(p, s, q).None?
    ensures r.Some? ==>
      && from <= r.value.start < |s|
      && MatchAt(p, s, r.value.start) == r
      && forall q :: from <= q < r.value.start ==> MatchAt(p, s, q).None?
    decreases |s| - from
  {
    if from == |s| then None
    else match MatchAt(p, s, from)
      case Some(m) => Some(m)
      case None => FirstMatch(p, s, from + 1)
  }

  /** The leftmost match is the match at the first position where one starts. */
  lemma FirstMatchAt(p: Pattern, s: string, from: nat, q: nat)
    requires from <= q && MatchAt(p, s, q).Some?
    requires forall k :: from <= k < q ==> MatchAt(p, s, k).None?
    ensures FirstMatch(p, s, from) == MatchAt(p, s, q)
  {
    var r := FirstMatch(p, s, from);
    assert r.Some?;
    assert r.value.start == q;
  }

  /** `s.split(rx)[0]`: the text before the leftmost match, or all of `s`.
      It is the longest prefix of `s` at no position of which a match starts. */
  function CutBefore(p: Pattern, s: string): (r: string)
    ensures |r| <= |s| && r == s[..|r|]
    ensures forall q :: 0 <= q < |r| ==> MatchAt(p, s, q).None?
    ensures |r| < |s| ==> MatchAt(p, s, |r|).Some?
  {
    match FirstMatch(p, s, 0)
    case None => s
    case Some(m) => s[..m.start]
  }

  /** The captures a `while (rx.exec(s))` loop over a global regex collects,
      resuming each search where the previous match ended. */
  function Captures(p: Pattern, s: string, from: nat): seq<string>
    requires from <= |s|
    decreases |s| - from
  {
    match FirstMatch(p, s, from)
    case None => []
    case Some(m) => [m.capture] + Captures(p, s, m.end)
  }

  /** A capture is a piece of the string it was found in. */
  lemma CaptureKeepsAbsent(p: Pattern, s: string, q: nat, c: char)
    requires c !in s && MatchAt(p, s, q).Some?
    ensures c !in MatchAt(p, s, q).value.capture
  {
    var m := MatchAt(p, s, q).value;
    match p
    case Tag => SliceKeepsAbsent(s, c, q + 1, m.end);
    case Date(marker) =>
      if ParenForm(s, q) {
        SliceKeepsAbsent(s, c, q + 2, m.end - 1);
      } else {
        SliceKeepsAbsent(s, c, q + 1, m.end);
      }
    case Note => SliceKeepsAbsent(s, c, q + 2, |s|);
  }

  /** So are all the captures a global `exec` loop collects. */
  lemma {:induction false} CapturesKeepAbsent(p: Pattern, s: string, from: nat, c: char)
    requires from <= |s| && c !in s
    ensures forall t | t in Captures(p, s, from) :: c !in t
    decreases |s| - from
  {
    match FirstMatch(p, s, from)
    case None =>
    case Some(m) =>
      CaptureKeepsAbsent(p, s, m.start, c);
      CapturesKeepAbsent(p, s, m.end, c);
      assert Captures(p, s, from) == [m.capture] + Captures(p, s, m.end);
  }

  /** Every tag the loop collects is a non-empty run free of whitespace. */
  lemma {:induction false} TagCapturesWellFormed(s: string, from: nat)
    requires from <= |s|
    ensures forall t | t in Captures(Tag, s, from) :: t != [] && NoSpace(t)
    decreases |s| - from
  {
    match FirstMatch(Tag, s, from)
    case None =>
    case Some(m) =>
      TagCapturesWellFormed(s, m.end);
      assert Captures(Tag, s, from) == [m.capture] + Captures(Tag, s, m.end);
  }

  /** A tag written at `q`: `#` followed by the non-whitespace run `t`. */
  predicate TagWrittenAt(s: string, q: nat, t: string) {
    TagAt(s, q).Some? && TagAt(s, q).value.capture == t
  }

  /** Every tag written as a word, at the search start or after whitespace, is
      collected by the `exec` loop. */
  lemma {:induction false} WordTagCollected(s: string, from: nat, q: nat)
    requires from <= q < |s| && TagAt(s, q).Some?
    requires q == from || IsSpace(s[q - 1])
    ensures TagAt(s, q).value.capture in Captures(Tag, s, from)
    decreases |s| - from
  {
    assert MatchAt(Tag, s, q).Some?;
    var m := FirstMatch(Tag, s, from).value;
    assert Captures(Tag, s, from) == [m.capture] + Captures(Tag, s, m.end);
    if m.start < q {
      assert s[m.start] == '#';
      assert m.start != q - 1;
      assert m.end <= q - 1;
      WordTagCollected(s, m.end, q);
    }
  }

  /** Conversely, every tag the loop collects is written at some position. */
  lemma {:induction false} CollectedTagWritten(s: string, from: nat)
    requires from <= |s|
    ensures forall t | t in Captures(Tag, s, from) :: exists q :: from <= q < |s| && TagWrittenAt(s, q, t)
    decreases |s| - from
  {
    match FirstMatch(Tag, s, from)
    case None =>
    case Some(m) =>
      CollectedTagWritten(s, m.end);
      assert TagWrittenAt(s, m.start, m.capture);
      assert Captures(Tag, s, from) == [m.capture] + Captures(Tag, s, m.end);
  }

  /** Tags and dates are decided by the characters at and after the match
      start only up to the match end, so a match inside a prefix is also a
      match in the whole string. (The note pattern is anchored at the end and
      has no such property.) */
  lemma MatchInPrefix(p: Pattern, s: string, n: nat, q: nat)
    requires p != Note && n <= |s|
    requires MatchAt(p, s[..n], q).Some?
    ensures MatchAt(p, s, q).Some?
  {
    assert s[..n][q] == s[q] && s[..n][q + 1] == s[q + 1];
  }

  /** After `s.split(rx)[0]` with a tag or date pattern, the remaining text
      holds no match of that pattern at all. */
  lemma CutBeforeHasNoMatch(p: Pattern, s: string)
    requires p != Note
    ensures forall q :: MatchAt(p, CutBefore(p, s), q).None?
  {
    var r := CutBefore(p, s);
    forall q | MatchAt(p, r, q).Some?
      ensures false
    {
      MatchInPrefix(p, s, |r|, q);
    }
  }

  /** A pattern whose leading character is absent never matches. */
  lemma NoMarkerNoMatch(p: Pattern, s: string, from: nat)
    requires from <= |s|
    requires p == Tag ==> '#' !in s
    requires p.Date? ==> p.marker !in s
    requires p == Note ==> '-' !in s
    ensures FirstMatch(p, s, from).None?
  {
  }
}
