/** The few QString operations the text input relies on, with Qt 5's
    semantics, over strings of Unicode scalar values.  Every separator the
    input code looks for is a single BMP character, so indices into a UTF-16
    QString and into this model agree on where a string is cut. */
module QtString {
  import opened MinMax

  /** QChar::isSpace: tab, line feed, vertical tab, form feed, carriage
      return, space, NEL, no-break space and the Unicode separators
      (categories Zs, Zl and Zp). */
  predicate IsSpace(c: char) {
    var u := c as int;
    u == 0x20 || (0x09 <= u <= 0x0D) || u == 0x85 || u == 0xA0 ||
    u == 0x1680 || (0x2000 <= u <= 0x200A) || u == 0x2028 || u == 0x2029 ||
    u == 0x202F || u == 0x205F || u == 0x3000
  }

  /** Number of white-space characters at the front of `s`. */
  function LeadingSpaces(s: string): (n: nat)
    ensures n <= |s|
    ensures forall i :: 0 <= i < n ==> IsSpace(s[i])
    ensures n < |s| ==> !IsSpace(s[n])
  {
    if |s| == 0 || !IsSpace(s[0]) then 0 else 1 + LeadingSpaces(s[1..])
  }

  /** Number of white-space characters at the back of `s`. */
  function TrailingSpaces(s: string): (n: nat)
    ensures n <= |s|
    ensures forall i :: |s| - n <= i < |s| ==> IsSpace(s[i])
    ensures n < |s| ==> !IsSpace(s[|s| - 1 - n])
  {
    if |s| == 0 || !IsSpace(s[|s| - 1]) then 0 else 1 + TrailingSpaces(s[..|s| - 1])
  }

  /** Where the trimmed text starts: past the leading white space of what
      is left once the trailing white space is cut. */
  function TrimStart(s: string): (a: nat)
    ensures a <= |s| - TrailingSpaces(s)
  {
    LeadingSpaces(s[..|s| - TrailingSpaces(s)])
  }

  /** QString::trimmed: white space is cut from the end, then from the start
      of what is left.  The result is the slice of `s` from TrimStart(s)
      with only white space on either side of it, and it begins and ends
      with a non-space, which fixes it uniquely. */
  function Trimmed(s: string): (r: string)
    ensures r == [] <==> forall i :: 0 <= i < |s| ==> IsSpace(s[i])
    ensures r != [] ==> !IsSpace(r[0]) && !IsSpace(r[|r| - 1])
    ensures |r| <= |s|
    ensures TrimStart(s) + |r| <= |s| && r == s[TrimStart(s)..TrimStart(s) + |r|]
    ensures forall i :: 0 <= i < TrimStart(s) ==> IsSpace(s[i])
    ensures forall i :: TrimStart(s) + |r| <= i < |s| ==> IsSpace(s[i])
  {
    var body := s[..|s| - TrailingSpaces(s)];
    var r := body[LeadingSpaces(body)..];
    assert r == s[TrimStart(s)..|body|];
    assert forall i :: 0 <= i < TrimStart(s) ==> IsSpace(s[i]) by {
      forall i | 0 <= i < TrimStart(s) ensures IsSpace(s[i]) {
        assert IsSpace(body[i]);
      }
    }
    r
  }

  /** QString::indexOf(c, from): the first position at or after `from`
      holding `c`, or -1. */
  function IndexFrom(s: string, c: char, from: nat): (i: int)
    requires from <= |s|
    ensures -1 <= i < |s|
    ensures 0 <= i ==> from <= i && s[i] == c
    ensures forall k :: from <= k < i ==> s[k] != c
    ensures i == -1 ==> forall k :: from <= k < |s| ==> s[k] != c
    decreases |s| - from
  {
    if from == |s| then -1
    else if s[from] == c then from
    else IndexFrom(s, c, from + 1)
  }

  /** QString::indexOf(c): the first position holding `c`, or -1. */
  function IndexOf(s: string, c: char): (i: int)
    ensures -1 <= i < |s|
    ensures 0 <= i ==> s[i] == c
    ensures forall k :: 0 <= k < i ==> s[k] != c
    ensures i == -1 ==> forall k :: 0 <= k < |s| ==> s[k] != c
  {
    IndexFrom(s, c, 0)
  }

  /** QString::mid(position, n), where a negative `n` means "to the end".
      A start past the end gives the null (empty) string. */
  function Mid(s: string, position: int, n: int): (r: string)
    ensures |r| <= |s|
  {
    if position > |s| then ""
    else if position < 0 then
      if n < 0 || n + position >= |s| then s
      else if n + position <= 0 then ""
      else s[..n + position]
    else
      var len := if n < 0 || n > |s| - position then |s| - position else n;
      s[position..position + len]
  }

  lemma MidFrom(s: string, position: int)
    requires 0 <= position <= |s|
    ensures Mid(s, position, -1) == s[position..]
  {
  }

  lemma MidRange(s: string, position: int, n: int)
    requires 0 <= position && 0 <= n && position + n <= |s|
    ensures Mid(s, position, n) == s[position..position + n]
  {
  }

  lemma MidPastEnd(s: string, position: int, n: int)
    requires position > |s|
    ensures Mid(s, position, n) == ""
  {
  }

  /** The fields of s[from..] between occurrences of `sep`, empty ones
      kept: each field ends at the next `sep`, found by IndexFrom. */
  function SplitFrom(s: string, sep: char, from: nat): (parts: seq<string>)
    requires from <= |s|
    ensures |parts| >= 1
    decreases |s| - from
  {
    var i := IndexFrom(s, sep, from);
    if i == -1 then [s[from..]] else [s[from..i]] + SplitFrom(s, sep, i + 1)
  }

  /** QString::split(sep) with empty parts kept. */
  function Split(s: string, sep: char): (parts: seq<string>)
    ensures |parts| >= 1
  {
    SplitFrom(s, sep, 0)
  }

  /** The parts glued back together with `sep` between neighbours. */
  function Join(parts: seq<string>, sep: char): string
  {
    if |parts| == 0 then ""
    else if |parts| == 1 then parts[0]
    else parts[0] + [sep] + Join(parts[1..], sep)
  }

  /** Splitting and joining with the same separator gives back the string. */
  lemma {:induction false} JoinSplitFrom(s: string, sep: char, from: nat)
    requires from <= |s|
    ensures Join(SplitFrom(s, sep, from), sep) == s[from..]
    decreases |s| - from
  {
    var i := IndexFrom(s, sep, from);
    if i == -1 {
      assert SplitFrom(s, sep, from) == [s[from..]];
    } else {
      var head, parts := s[from..i], SplitFrom(s, sep, i + 1);
      assert SplitFrom(s, sep, from) == [head] + parts;
      JoinSplitFrom(s, sep, i + 1);
      JoinCons(head, parts, sep);
      assert s[i..] == [sep] + s[i + 1..];
      assert s[from..] == head + s[i..];
      assert Join(SplitFrom(s, sep, from), sep) == head + ([sep] + s[i + 1..]);
    }
  }

  lemma JoinCons(head: string, parts: seq<string>, sep: char)
    requires |parts| >= 1
    ensures Join([head] + parts, sep) == head + ([sep] + Join(parts, sep))
  {
    assert ([head] + parts)[1..] == parts;
  }

  /** QString::section(sep, start, end) with the default flags: the fields
      start..end of the split, negative indices counting from the back. */
  function Section(s: string, sep: char, start: int, end: int): string
  {
    var sections := Split(s, sep);
    var n := |sections|;
    var first := if start < 0 then start + n else start;
    var last := if end < 0 then end + n else end;
    if first >= n || last < 0 || first > last then ""
    else Join(sections[Max(first, 0)..Min(last, n - 1) + 1], sep)
  }

  /** section(sep, 0, 0) is the text before the first separator (all of it
      when there is none). */
  lemma SectionFirstField(s: string, sep: char)
    ensures var i := IndexOf(s, sep);
            Section(s, sep, 0, 0) == if i == -1 then s else s[..i]
    ensures sep !in Section(s, sep, 0, 0)
  {
    var sections := Split(s, sep);
    assert sections[0..1] == [sections[0]];
  }

  /** section(sep, 1, -1) is everything after the first separator, and
      empty when there is none. */
  lemma SectionAfterFirst(s: string, sep: char)
    ensures var i := IndexOf(s, sep);
            Section(s, sep, 1, -1) == if i == -1 then "" else s[i + 1..]
  {
    var sections := Split(s, sep);
    var n := |sections|;
    var i := IndexOf(s, sep);
    if i != -1 {
      assert sections == [s[..i]] + SplitFrom(s, sep, i + 1);
      assert sections[1..n] == SplitFrom(s, sep, i + 1);
      assert Section(s, sep, 1, -1) == Join(sections[1..n], sep);
      JoinSplitFrom(s, sep, i + 1);
    }
  }
}
