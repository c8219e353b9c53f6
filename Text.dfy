/** The Python string built-ins the program leans on: `str.strip()`,
    `str.lower()`, `"\n".join(...)` and `str.split("\n")`.
    Whitespace is Python's whole whitespace set; case is restricted to
    ASCII letters. */
module Text {

  /** A character `str.strip()` removes: exactly the characters Python's
      `str.isspace` accepts. */
  predicate IsSpace(c: char) {
    IsAsciiSpace(c) || IsUnicodeSpace(c)
  }

  /** Tab to carriage return, the separators 0x1C to 0x1F, and space. */
  predicate IsAsciiSpace(c: char) {
    c == ' ' || ('\t' <= c <= '\r') || ('\U{1C}' <= c <= '\U{1F}')
  }

  /** Next line, no-break space, and the Unicode space, line and paragraph
      separators. */
  predicate IsUnicodeSpace(c: char) {
    || c == '\U{85}' || c == '\U{A0}' || c == '\U{1680}'
    || ('\U{2000}' <= c <= '\U{200A}') || c == '\U{2028}' || c == '\U{2029}'
    || c == '\U{202F}' || c == '\U{205F}' || c == '\U{3000}'
  }

  /** `str.lstrip()`: `s` without its leading whitespace. */
  function StripLeft(s: string): (r: string)
    ensures |r| <= |s| && r == s[|s| - |r|..]
    ensures r != [] ==> !IsSpace(r[0])
  {
    if s != [] && IsSpace(s[0]) then StripLeft(s[1..]) else s
  }

  /** `str.rstrip()`: `s` without its trailing whitespace. */
  function StripRight(s: string): (r: string)
    ensures |r| <= |s| && r == s[..|r|]
    ensures r != [] ==> !IsSpace(r[|r| - 1])
  {
    if s != [] && IsSpace(s[|s| - 1]) then StripRight(s[..|s| - 1]) else s
  }

  /** `str.strip()`: `s` without its leading and trailing whitespace. */
  function Strip(s: string): (r: string)
    ensures |r| <= |s|
    ensures r != [] ==> !IsSpace(r[0]) && !IsSpace(r[|r| - 1])
  {
    StripRight(StripLeft(s))
  }

  /** What `str.lstrip()` removes is whitespace, and what it keeps starts
      with a non-whitespace character. */
  lemma {:induction false} StripLeftSpec(s: string)
    ensures forall k :: 0 <= k < |s| - |StripLeft(s)| ==> IsSpace(s[k])
    ensures StripLeft(s) != [] ==> !IsSpace(StripLeft(s)[0])
  {
    if s != [] && IsSpace(s[0]) {
      StripLeftSpec(s[1..]);
      SpacesPrepend(s, |s[1..]| - |StripLeft(s[1..])|);
    }
  }

  /** A whitespace character before `m` whitespace characters makes `m + 1`. */
  lemma SpacesPrepend(s: string, m: nat)
    requires s != [] && IsSpace(s[0]) && m < |s|
    requires forall k :: 0 <= k < m ==> IsSpace(s[1..][k])
    ensures forall k :: 0 <= k < m + 1 ==> IsSpace(s[k])
  {
    forall k | 0 < k < m + 1
      ensures IsSpace(s[k])
    {
      assert s[k] == s[1..][k - 1];
    }
  }

  /** What `str.rstrip()` removes is whitespace, and what it keeps ends with
      a non-whitespace character. */
  lemma {:induction false} StripRightSpec(s: string)
    ensures forall k :: |StripRight(s)| <= k < |s| ==> IsSpace(s[k])
    ensures StripRight(s) != [] ==> !IsSpace(StripRight(s)[|StripRight(s)| - 1])
  {
    if s != [] && IsSpace(s[|s| - 1]) {
      var init := s[..|s| - 1];
      StripRightSpec(init);
      forall k | |StripRight(s)| <= k < |s| - 1
        ensures IsSpace(s[k])
      {
        assert s[k] == init[k];
      }
    }
  }

  /** `str.strip()` removes whitespace from both ends and only from the
      ends: the result is a contiguous part of `s`, everything before and
      after it is whitespace, and it neither starts nor ends with
      whitespace. */
  lemma StripSpec(s: string)
    ensures var r := Strip(s); var i := |s| - |StripLeft(s)|;
      && i + |r| <= |s|
      && r == s[i..i + |r|]
      && (forall k :: 0 <= k < i ==> IsSpace(s[k]))
      && (forall k :: i + |r| <= k < |s| ==> IsSpace(s[k]))
      && (r != [] ==> !IsSpace(r[0]) && !IsSpace(r[|r| - 1]))
  {
    StripSpan(s);
    StripLeftSpec(s);
    StripTrailing(s);
  }

  /** The stripped text sits in `s` right after the leading whitespace. */
  lemma StripSpan(s: string)
    ensures var i := |s| - |StripLeft(s)|;
      i + |Strip(s)| <= |s| && Strip(s) == s[i..i + |Strip(s)|]
  {
    var left := StripLeft(s);
    var i := |s| - |left|;
    assert left == s[i..];
    assert Strip(s) == left[..|Strip(s)|];
  }

  /** Everything after the stripped text is whitespace. */
  lemma StripTrailing(s: string)
    ensures forall k :: |s| - |StripLeft(s)| + |Strip(s)| <= k < |s| ==> IsSpace(s[k])
  {
    var left := StripLeft(s);
    StripRightSpec(left);
    SpacesShift(s, |s| - |left|, left, |StripRight(left)|);
  }

  /** Whitespace at the end of a suffix `left` of `s` is whitespace at the
      end of `s`. */
  lemma SpacesShift(s: string, i: nat, left: string, n: nat)
    requires i <= |s| && left == s[i..] && n <= |left|
    requires forall k :: n <= k < |left| ==> IsSpace(left[k])
    ensures forall k :: i + n <= k < |s| ==> IsSpace(s[k])
  {
    forall k | i + n <= k < |s|
      ensures IsSpace(s[k])
    {
      assert s[k] == left[k - i];
    }
  }

  /** The stripped text is empty exactly when every character is whitespace. */
  lemma StripBlank(s: string)
    ensures Strip(s) == [] <==> forall k :: 0 <= k < |s| ==> IsSpace(s[k])
  {
    StripSpec(s);
    var i := |s| - |StripLeft(s)|;
    if Strip(s) == [] {
      forall k | 0 <= k < |s|
        ensures IsSpace(s[k])
      {
      }
    } else {
      assert !IsSpace(s[i]);
    }
  }

  /** Stripping twice removes nothing more. */
  lemma StripIdempotent(s: string)
    ensures Strip(Strip(s)) == Strip(s)
  {
    var r := Strip(s);
    StripSpec(s);
    if r != [] {
      assert StripLeft(r) == r;
      assert StripRight(r) == r;
    }
  }

  /** ASCII `str.lower()` on one character. */
  function LowerChar(c: char): (d: char)
    ensures 'A' <= c <= 'Z' ==> d as int == c as int + 32
    ensures !('A' <= c <= 'Z') ==> d == c
  {
    if 'A' <= c <= 'Z' then (c as int + 32) as char else c
  }

  /** `str.lower()`, restricted to ASCII letters: no upper-case letter is
      left, and every other character is kept. */
  function Lower(s: string): (r: string)
    ensures |r| == |s|
    ensures forall k :: 0 <= k < |r| ==> !('A' <= r[k] <= 'Z')
    ensures forall k :: 0 <= k < |s| && !('A' <= s[k] <= 'Z') ==> r[k] == s[k]
    ensures forall k :: 0 <= k < |s| && 'A' <= s[k] <= 'Z' ==> r[k] as int == s[k] as int + 32
  {
    seq(|s|, k requires 0 <= k < |s| => LowerChar(s[k]))
  }

  /** How every prompt answer is read: `answer.strip().lower()`. An answer
      counts as yes exactly when, stripped, it is "y" or "Y". */
  function Normalize(answer: string): (r: string)
    ensures |r| == |Strip(answer)|
    ensures r == "y" <==> Strip(answer) == "y" || Strip(answer) == "Y"
  {
    Lower(Strip(answer))
  }

  /** `"\n".join(lines)`. */
  function Join(lines: seq<string>): (r: string)
    ensures |lines| == 1 ==> r == lines[0]
    ensures |lines| >= 1 ==> lines[0] <= r
  {
    if |lines| == 0 then []
    else if |lines| == 1 then lines[0]
    else lines[0] + "\n" + Join(lines[1..])
  }

  /** `s.split("\n")`: the pieces between newlines, always at least one. */
  function Split(s: string): (pieces: seq<string>)
    ensures |pieces| >= 1
    ensures forall k :: 0 <= k < |pieces| ==> '\n' !in pieces[k]
  {
    if s == [] then [[]]
    else if s[0] == '\n' then [[]] + Split(s[1..])
    else
      var rest := Split(s[1..]);
      [[s[0]] + rest[0]] + rest[1..]
  }

  /** A line without newlines splits to itself, and a newline after it
      starts the next piece. */
  lemma {:induction false} SplitLine(line: string, rest: string)
    requires '\n' !in line
    ensures Split(line) == [line]
    ensures Split(line + "\n" + rest) == [line] + Split(rest)
  {
    if line == [] {
      assert line + "\n" + rest == ['\n'] + rest;
      assert (['\n'] + rest)[1..] == rest;
    } else {
      assert line[0] in line;
      SplitLine(line[1..], rest);
      assert line[1..] == line[..][1..];
      assert (line + "\n" + rest)[1..] == line[1..] + "\n" + rest;
      assert [line[0]] + line[1..] == line;
    }
  }

  /** Splitting a join of newline-free lines gives the lines back. */
  lemma {:induction false} SplitJoin(lines: seq<string>)
    requires |lines| >= 1
    requires forall k :: 0 <= k < |lines| ==> '\n' !in lines[k]
    ensures Split(Join(lines)) == lines
  {
    SplitLine(lines[0], []);
    if |lines| > 1 {
      SplitJoin(lines[1..]);
      SplitLine(lines[0], Join(lines[1..]));
    }
  }

  /** Joining the pieces of a split gives the string back. */
  lemma {:induction false} JoinSplit(s: string)
    ensures Join(Split(s)) == s
  {
    if s != [] {
      JoinSplit(s[1..]);
      var rest := Split(s[1..]);
      if s[0] == '\n' {
        assert Join([[]] + rest) == "\n" + Join(rest) by {
          assert ([[]] + rest)[1..] == rest;
        }
        assert s == "\n" + s[1..];
      } else {
        var pieces := [[s[0]] + rest[0]] + rest[1..];
        if |rest| == 1 {
          assert s == [s[0]] + s[1..];
        } else {
          assert pieces[1..] == rest[1..];
          assert Join(rest) == rest[0] + "\n" + Join(rest[1..]);
          assert s == [s[0]] + s[1..];
        }
      }
    }
  }
}
