/**
 The JavaScript string built-ins the shorthand converter relies on: the
 whitespace class behind `\s`/`\S`, the line terminators that `.` refuses,
 `String.prototype.split` with a one-character string separator and
 `Array.prototype.join` with a one-character separator.
 */
module JsText {

  /** A JavaScript value that is either `null` or a string (or another value). */
  datatype Option<T> = None | Some(value: T)

  /** The characters `\s` matches in an ECMAScript regular expression:
      WhiteSpace (TAB, VT, FF, SP, NBSP, ZWNBSP and the Zs category) and
      LineTerminator (LF, CR, LS, PS). `\S` is its complement. */
  predicate IsSpace(c: char) {
    || c == '\t' || c == '\n' || c == '\U{0B}' || c == '\U{0C}' || c == '\r' || c == ' '
    || c == '\U{A0}' || c == '\U{1680}' || ('\U{2000}' <= c <= '\U{200A}')
    || c == '\U{2028}' || c == '\U{2029}' || c == '\U{202F}' || c == '\U{205F}'
    || c == '\U{3000}' || c == '\U{FEFF}'
  }

  /** The characters `.` does not match (no `s` flag): the ECMAScript LineTerminators. */
  predicate IsLineTerminator(c: char) {
    c == '\n' || c == '\r' || c == '\U{2028}' || c == '\U{2029}'
  }

  predicate NoSpace(s: string) {
    forall k :: 0 <= k < |s| ==> !IsSpace(s[k])
  }

  /** The first index at or after `i` whose character satisfies `stop`, or `|s|`. */
  function Scan(s: string, i: nat, stop: char -> bool): (j: nat)
    requires i <= |s|
    ensures i <= j <= |s|
    ensures forall k :: i <= k < j ==> !stop(s[k])
    ensures j < |s| ==> stop(s[j])
    decreases |s| - i
  {
    if i == |s| || stop(s[i]) then i else Scan(s, i + 1, stop)
  }

  /** The first index at or after `from` holding `c`, or `|s|`. */
  function IndexOf(s: string, c: char, from: nat): (i: nat)
    requires from <= |s|
    ensures from <= i <= |s|
    ensures forall k :: from <= k < i ==> s[k] != c
    ensures i < |s| ==> s[i] == c
    decreases |s| - from
  {
    if from == |s| || s[from] == c then from else IndexOf(s, c, from + 1)
  }

  /** Taking one more element of a sequence appends that element. */
  lemma TakeOneMore<T>(s: seq<T>, j: nat)
    requires j < |s|
    ensures s[..j + 1] == s[..j] + [s[j]]
  {
  }

  /** A sequence cut around one of its elements. */
  lemma CutAround<T>(s: seq<T>, i: nat)
    requires i < |s|
    ensures s == s[..i] + [s[i]] + s[i + 1..]
  {
  }

  /** A sequence cut at two positions. */
  lemma CutTwice<T>(s: seq<T>, i: nat, j: nat)
    requires i <= j <= |s|
    ensures s == s[..i] + s[i..j] + s[j..]
  {
  }

  /** Dropping the last element of a concatenation with a non-empty tail. */
  lemma DropLastOfAppend<T>(a: seq<T>, b: seq<T>)
    requires b != []
    ensures (a + b)[..|a + b| - 1] == a + b[..|b| - 1]
    ensures (a + b)[|a + b| - 1] == b[|b| - 1]
  {
  }

  lemma AppendAssoc<T>(a: seq<T>, b: seq<T>, c: seq<T>)
    ensures (a + b) + c == a + (b + c)
  {
  }

  /** A slice holds only elements of the sequence it is cut from. */
  lemma SliceKeepsAbsent<T>(s: seq<T>, c: T, i: nat, j: nat)
    requires i <= j <= |s| && c !in s
    ensures c !in s[i..j]
  {
    forall k | 0 <= k < j - i
      ensures s[i..j][k] != c
    {
      assert s[i..j][k] == s[i + k];
    }
  }

  /** `s.split(sep)` for a one-character string `sep`: the pieces between
      occurrences of `sep`, empty pieces included; `"".split(sep)` is `[""]`. */
  function Split(s: string, sep: char): (parts: seq<string>)
    ensures |parts| >= 1
    ensures forall p | p in parts :: sep !in p
    ensures sep in s <==> |parts| > 1
    ensures |parts[0]| <= |s| && parts[0] == s[..|parts[0]|]
    ensures |parts[0]| < |s| ==> s[|parts[0]|] == sep
    decreases |s|
  {
    var i := IndexOf(s, sep, 0);
    if i == |s| then [s] else [s[..i]] + Split(s[i + 1..], sep)
  }

  /** `parts.join(sep)` for a one-character `sep`. */
  function Join(parts: seq<string>, sep: char): string
    decreases |parts|
  {
    if |parts| == 0 then ""
    else if |parts| == 1 then parts[0]
    else parts[0] + [sep] + Join(parts[1..], sep)
  }

  lemma JoinCons(head: string, rest: seq<string>, sep: char)
    requires |rest| >= 1
    ensures Join([head] + rest, sep) == head + [sep] + Join(rest, sep)
  {
    assert ([head] + rest)[1..] == rest;
  }

  /** A join holds no character that is neither the separator nor in a part. */
  lemma {:induction false} JoinKeepsAbsent(parts: seq<string>, sep: char, c: char)
    requires c != sep && forall p | p in parts :: c !in p
    ensures c !in Join(parts, sep)
    decreases |parts|
  {
    if |parts| > 1 {
      assert parts[0] in parts;
      assert forall p | p in parts[1..] :: p in parts;
      JoinKeepsAbsent(parts[1..], sep, c);
    } else if |parts| == 1 {
      assert parts[0] in parts;
    }
  }

  /** Splitting loses nothing: joining the pieces with the separator gives the text back. */
  lemma {:induction false} SplitJoin(s: string, sep: char)
    ensures Join(Split(s, sep), sep) == s
    decreases |s|
  {
    var i := IndexOf(s, sep, 0);
    if i == |s| {
      assert Split(s, sep) == [s];
    } else {
      var rest := Split(s[i + 1..], sep);
      assert Split(s, sep) == [s[..i]] + rest;
      calc {
        Join(Split(s, sep), sep);
      == { JoinCons(s[..i], rest, sep); }
        s[..i] + [sep] + Join(rest, sep);
      == { SplitJoin(s[i + 1..], sep); }
        s[..i] + [s[i]] + s[i + 1..];
      == { CutAround(s, i); }
        s;
      }
    }
  }

  /** The first separator in `head + [sep] + tail` is the one after `head`
      when `head` has none. */
  lemma IndexOfAfterHead(head: string, sep: char, tail: string)
    requires sep !in head
    ensures IndexOf(head + [sep] + tail, sep, 0) == |head|
  {
    var s := head + [sep] + tail;
    var i := IndexOf(s, sep, 0);
    assert s[|head|] == sep;
  }

  /** Conversely, pieces free of the separator come back unchanged from
      splitting their join. */
  lemma {:induction false} JoinSplit(parts: seq<string>, sep: char)
    requires |parts| >= 1
    requires forall p | p in parts :: sep !in p
    ensures Split(Join(parts, sep), sep) == parts
    decreases |parts|
  {
    if |parts| == 1 {
      assert parts[0] in parts;
      assert IndexOf(parts[0], sep, 0) == |parts[0]|;
    } else {
      var head, rest := parts[0], parts[1..];
      assert head in parts;
      assert forall p | p in rest :: p in parts;
      var tail := Join(rest, sep);
      var s := head + [sep] + tail;
      assert Join(parts, sep) == s;
      IndexOfAfterHead(head, sep, tail);
      assert s[..|head|] == head;
      assert s[|head| + 1..] == tail;
      JoinSplit(rest, sep);
      assert Split(s, sep) == [head] + rest;
    }
  }
}
