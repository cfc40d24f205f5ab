/** Util::escape, which puts an escape before listed characters, and the reading that undoes it. */
module Escape {
  import opened Prelude

  /** The escape put before every listed character, character by character. */
  function Escaped(s: string, what: string, escapeBy: string): string {
    if s == "" then "" else (if s[0] in what then escapeBy else "") + [s[0]] + Escaped(s[1..], what, escapeBy)
  }

  /** std::string::find_first_of. */
  method FindFirstOf(s: string, what: string, from: nat) returns (pos: Option<nat>)
    requires from <= |s|
    ensures pos.None? ==> forall i :: from <= i < |s| ==> s[i] !in what
    ensures pos.Some? ==>
      from <= pos.value < |s| && s[pos.value] in what && forall i :: from <= i < pos.value ==> s[i] !in what
  {
    var i := from;
    while i < |s|
      invariant from <= i <= |s|
      invariant forall k :: from <= k < i ==> s[k] !in what
    {
      if s[i] in what {
        return Some(i);
      }
      i := i + 1;
    }
    return None;
  }

  /** Util::escape: the loop inserts into the text it searches and jumps over what it inserted. */
  method EscapeText(input: string, what: string, escapeBy: string) returns (text: string)
    ensures text == Escaped(input, what, escapeBy)
  {
    text := input;
    var idx: nat := 0;
    ghost var done: nat := 0;
    while true
      invariant InProgress(input, what, escapeBy, text, idx, done)
      decreases |input| - done
    {
      var found := FindFirstOf(text, what, idx);
      if found.None? {
        EscapeEnds(input, what, escapeBy, text, idx, done);
        break;
      }
      EscapeGoesOn(input, what, escapeBy, text, idx, done, found.value);
      done := done + (found.value - idx) + 1;
      text := text[..found.value] + escapeBy + text[found.value..];
      idx := found.value + |escapeBy| + 1;
    }
  }

  /** The text up to `idx` is the input up to `done`, escaped; what follows is untouched. */
  ghost predicate InProgress(input: string, what: string, escapeBy: string, text: string, idx: nat, done: nat) {
    && done <= |input| && idx <= |text|
    && text[..idx] == Escaped(input[..done], what, escapeBy)
    && text[idx..] == input[done..]
  }

  lemma EscapeEnds(input: string, what: string, escapeBy: string, text: string, idx: nat, done: nat)
    requires InProgress(input, what, escapeBy, text, idx, done)
    requires forall i :: idx <= i < |text| ==> text[i] !in what
    ensures text == Escaped(input, what, escapeBy)
  {
    NothingListed(what, text, idx);
    UnlistedIsUnchanged(input[done..], what, escapeBy);
    EscapedConcat(input[..done], input[done..], what, escapeBy);
    Parts(input, done);
    Parts(text, idx);
  }

  lemma NothingListed(what: string, text: string, idx: nat)
    requires idx <= |text| && forall i :: idx <= i < |text| ==> text[i] !in what
    ensures forall i :: 0 <= i < |text[idx..]| ==> text[idx..][i] !in what
  {
    assert forall i :: 0 <= i < |text[idx..]| ==> text[idx..][i] == text[idx + i];
  }

  lemma Parts(s: string, n: nat)
    requires n <= |s|
    ensures s[..n] + s[n..] == s
  {
  }

  lemma EscapeGoesOn(input: string, what: string, escapeBy: string, text: string, idx: nat, done: nat, at: nat)
    requires InProgress(input, what, escapeBy, text, idx, done)
    requires idx <= at < |text| && text[at] in what && forall i :: idx <= i < at ==> text[i] !in what
    ensures InProgress(input, what, escapeBy, text[..at] + escapeBy + text[at..], at + |escapeBy| + 1,
                       done + (at - idx) + 1)
  {
    var later, end := text[..at] + escapeBy + text[at..], done + (at - idx) + 1;
    SameSlices(input, done, text, idx, at);
    EscapedSlice(input, what, escapeBy, text, idx, done, at);
    InsertedParts(text, escapeBy, idx, at);
  }

  /** What the text holds from `idx` on is what the input holds from `done` on. */
  lemma SameSlices(input: string, done: nat, text: string, idx: nat, at: nat)
    requires done <= |input| && idx <= at < |text| && text[idx..] == input[done..]
    ensures done + (at - idx) < |input|
    ensures text[idx..at + 1] == input[done..done + (at - idx) + 1]
    ensures text[at + 1..] == input[done + (at - idx) + 1..]
  {
    var n := at - idx + 1;
    assert |text| - idx == |input| - done;
    assert text[idx..at + 1] == text[idx..][..n] && input[done..done + n] == input[done..][..n];
    assert text[at + 1..] == text[idx..][n..] && input[done + n..] == input[done..][n..];
  }

  /** The next listed character and what comes before it, escaped. */
  lemma EscapedSlice(input: string, what: string, escapeBy: string, text: string, idx: nat, done: nat, at: nat)
    requires done + (at - idx) < |input| && idx <= at < |text|
    requires text[idx..at + 1] == input[done..done + (at - idx) + 1]
    requires text[at] in what && forall i :: idx <= i < at ==> text[i] !in what
    ensures Escaped(input[..done + (at - idx) + 1], what, escapeBy) ==
      Escaped(input[..done], what, escapeBy) + (text[idx..at] + escapeBy + [text[at]])
  {
    var next, end := text[idx..at + 1], done + (at - idx) + 1;
    assert next[..|next| - 1] == text[idx..at] && next[|next| - 1] == text[at];
    OneEscape(next, what, escapeBy);
    EscapedConcat(input[..done], next, what, escapeBy);
    assert input[..end] == input[..done] + input[done..end];
  }

  /** The two parts of the text after the insertion. */
  lemma InsertedParts(text: string, escapeBy: string, idx: nat, at: nat)
    requires idx <= at < |text|
    ensures var later := text[..at] + escapeBy + text[at..];
      && later[..at + |escapeBy| + 1] == text[..idx] + (text[idx..at] + escapeBy + [text[at]])
      && later[at + |escapeBy| + 1..] == text[at + 1..]
  {
  }

  const QUOTE := '\''
  const BACKSLASH := '\\'

  /** escape2, which uses the default sets. */
  function Escape2(s: string): string {
    Escaped(s, [QUOTE, BACKSLASH], [BACKSLASH])
  }

  /** Reads a text in which a backslash makes the next character literal. */
  function Unescape(s: string): string {
    if s == "" then ""
    else if s[0] == BACKSLASH && |s| > 1 then [s[1]] + Unescape(s[2..])
    else [s[0]] + Unescape(s[1..])
  }

  /** No quote ends the text, and no backslash at its end would make a following quote literal. */
  predicate IsClosed(s: string) {
    if s == "" then true
    else if s[0] == BACKSLASH then |s| > 1 && IsClosed(s[2..])
    else s[0] != QUOTE && IsClosed(s[1..])
  }

  lemma {:induction false} EscapedConcat(a: string, b: string, what: string, escapeBy: string)
    ensures Escaped(a + b, what, escapeBy) == Escaped(a, what, escapeBy) + Escaped(b, what, escapeBy)
  {
    if a == "" {
      assert a + b == b;
    } else {
      EscapedConcat(a[1..], b, what, escapeBy);
      assert (a + b)[0] == a[0] && (a + b)[1..] == a[1..] + b;
      ConcatAssociates((if a[0] in what then escapeBy else "") + [a[0]], Escaped(a[1..], what, escapeBy),
                       Escaped(b, what, escapeBy));
    }
  }

  lemma {:induction false} UnlistedIsUnchanged(s: string, what: string, escapeBy: string)
    requires forall i :: 0 <= i < |s| ==> s[i] !in what
    ensures Escaped(s, what, escapeBy) == s
  {
    if s != "" {
      UnlistedIsUnchanged(s[1..], what, escapeBy);
      assert s == [s[0]] + s[1..];
    }
  }

  /** A run of unlisted characters and one listed character. */
  lemma OneEscape(s: string, what: string, escapeBy: string)
    requires s != "" && s[|s| - 1] in what
    requires forall i :: 0 <= i < |s| - 1 ==> s[i] !in what
    ensures Escaped(s, what, escapeBy) == s[..|s| - 1] + escapeBy + [s[|s| - 1]]
  {
    var init, last := s[..|s| - 1], s[|s| - 1..];
    assert s == init + last;
    UnlistedIsUnchanged(init, what, escapeBy);
    EscapedConcat(init, last, what, escapeBy);
    assert last[1..] == "";
    assert Escaped(last, what, escapeBy) == escapeBy + [s[|s| - 1]];
  }

  /** Escaping is undone by reading, for every text. */
  lemma {:induction false} UnescapeEscape(s: string)
    ensures Unescape(Escape2(s)) == s
    ensures IsClosed(Escape2(s))
  {
    if s != "" {
      UnescapeEscape(s[1..]);
      var e := Escape2(s);
      var tail := Escape2(s[1..]);
      if s[0] in [QUOTE, BACKSLASH] {
        assert e == [BACKSLASH] + [s[0]] + tail;
        assert e[2..] == tail;
      } else {
        assert e == [s[0]] + tail;
        assert e[1..] == tail;
      }
    }
  }

  /** Different texts are escaped differently. */
  lemma Escape2IsInjective(a: string, b: string)
    requires Escape2(a) == Escape2(b)
    ensures a == b
  {
    UnescapeEscape(a);
    UnescapeEscape(b);
  }
}
