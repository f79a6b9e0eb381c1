/**
 * The three Python string operations the roster code relies on:
 * `str.strip()` with no argument, `str.split(sep)` with a one-character
 * separator, and `sep.join(parts)`.
 */
module Text {

  /** Python's `str.isspace()` for a single character. */
  predicate IsSpace(c: char) {
    ('\U{0009}' <= c <= '\U{000D}') || ('\U{001C}' <= c <= '\U{0020}') ||
    c == '\U{0085}' || c == '\U{00A0}' || c == '\U{1680}' ||
    ('\U{2000}' <= c <= '\U{200A}') || c == '\U{2028}' || c == '\U{2029}' ||
    c == '\U{202F}' || c == '\U{205F}' || c == '\U{3000}'
  }

  /** Neither starts nor ends with whitespace, so `strip()` leaves it as is. */
  predicate Unpadded(s: string) {
    s == [] || (!IsSpace(s[0]) && !IsSpace(s[|s| - 1]))
  }

  /** `s.lstrip()`: drops the leading whitespace. */
  function StripLeft(s: string): (r: string)
    ensures r == [] || !IsSpace(r[0])
  {
    if |s| > 0 && IsSpace(s[0]) then StripLeft(s[1..]) else s
  }

  /** lstrip() keeps a suffix and drops only whitespace before it. */
  lemma {:induction false} StripLeftIsSuffix(s: string)
    ensures |StripLeft(s)| <= |s| && StripLeft(s) == s[|s| - |StripLeft(s)|..]
    ensures forall i :: 0 <= i < |s| - |StripLeft(s)| ==> IsSpace(s[i])
  {
    if |s| > 0 && IsSpace(s[0]) {
      StripLeftIsSuffix(s[1..]);
    }
  }

  /** `s.rstrip()`: drops the trailing whitespace. */
  function StripRight(s: string): (r: string)
    ensures r == [] || !IsSpace(r[|r| - 1])
  {
    if |s| > 0 && IsSpace(s[|s| - 1]) then StripRight(s[..|s| - 1]) else s
  }

  /** rstrip() keeps a prefix and drops only whitespace after it. */
  lemma {:induction false} StripRightIsPrefix(s: string)
    ensures |StripRight(s)| <= |s| && StripRight(s) == s[..|StripRight(s)|]
    ensures forall i :: |StripRight(s)| <= i < |s| ==> IsSpace(s[i])
  {
    if |s| > 0 && IsSpace(s[|s| - 1]) {
      StripRightIsPrefix(s[..|s| - 1]);
    }
  }

  /** r is s[a..a+|r|] and everything of s around it is whitespace. */
  ghost predicate StrippedAt(s: string, r: string, a: int) {
    0 <= a <= |s| - |r| && r == s[a..a + |r|] &&
    (forall i :: 0 <= i < a ==> IsSpace(s[i])) &&
    (forall i :: a + |r| <= i < |s| ==> IsSpace(s[i]))
  }

  /** r is s with only its surrounding whitespace removed. */
  ghost predicate IsStripOf(s: string, r: string) {
    exists a :: StrippedAt(s, r, a)
  }

  /**
   * `s.strip()`: the part of s between its leading and its trailing
   * whitespace; the result is itself unpadded.
   */
  function Strip(s: string): (r: string)
    ensures Unpadded(r)
  {
    var l := StripLeft(s);
    var r := StripRight(l);
    StripRightIsPrefix(l);
    assert r != [] ==> r[0] == l[0];
    r
  }

  /** A prefix of a suffix of s is a slice of s. */
  lemma PrefixOfSuffix(s: string, l: string, r: string, a: int)
    requires 0 <= a <= |s| && l == s[a..] && |r| <= |l| && r == l[..|r|]
    ensures r == s[a..a + |r|]
    ensures forall i :: a + |r| <= i < |s| ==> s[i] == l[i - a]
  {
  }

  /** strip() removes only whitespace, and only from the two ends. */
  lemma StripIsSlice(s: string)
    ensures exists a :: StrippedAt(s, Strip(s), a)
  {
    var l := StripLeft(s);
    StripLeftIsSuffix(s);
    var a := |s| - |l|;
    var r := StripRight(l);
    StripRightIsPrefix(l);
    PrefixOfSuffix(s, l, r, a);
    assert Strip(s) == r;
    assert StrippedAt(s, r, a);
  }

  lemma StripUnpadded(s: string)
    requires Unpadded(s)
    ensures Strip(s) == s
  {
    assert StripLeft(s) == s;
    assert StripRight(s) == s;
  }

  /** One blank before an unpadded piece is removed again by strip(). */
  lemma StripAfterBlank(s: string)
    requires Unpadded(s)
    ensures Strip(" " + s) == s
  {
    var b := " " + s;
    assert b[1..] == s;
    assert StripLeft(b) == StripLeft(s) == s;
    assert StripRight(s) == s;
  }

  /** `sep.join(parts)`. */
  function Join(parts: seq<string>, sep: string): string {
    if |parts| == 0 then ""
    else if |parts| == 1 then parts[0]
    else parts[0] + sep + Join(parts[1..], sep)
  }

  /**
   * `s.split(sep)`: the pieces between occurrences of sep. There is always
   * at least one piece, none contains sep, and joining them with sep gives
   * s back.
   */
  function Split(s: string, sep: char): (r: seq<string>)
    ensures |r| >= 1
    ensures forall i :: 0 <= i < |r| ==> sep !in r[i]
    ensures Join(r, [sep]) == s
  {
    if |s| == 0 then [""]
    else
      var rest := Split(s[1..], sep);
      if s[0] == sep then
        assert s == [sep] + s[1..];
        [""] + rest
      else
        var r := [[s[0]] + rest[0]] + rest[1..];
        assert r[1..] == rest[1..];
        assert s == [s[0]] + s[1..];
        r
  }

  lemma {:induction false} SplitNoSeparator(s: string, sep: char)
    requires sep !in s
    ensures Split(s, sep) == [s]
  {
    if |s| > 0 {
      SplitNoSeparator(s[1..], sep);
      assert s == [s[0]] + s[1..];
    }
  }

  lemma {:induction false} SplitAfterPiece(p: string, sep: char, x: string)
    requires sep !in p
    ensures Split(p + [sep] + x, sep) == [p] + Split(x, sep)
  {
    var s := p + [sep] + x;
    if |p| == 0 {
      assert s[1..] == x;
    } else {
      SplitAfterPiece(p[1..], sep, x);
      assert s[1..] == p[1..] + [sep] + x;
      assert p == [p[0]] + p[1..];
    }
  }

  /** Splitting a join of separator-free pieces gives the pieces back. */
  lemma {:induction false} SplitJoin(parts: seq<string>, sep: char)
    requires |parts| >= 1
    requires forall i :: 0 <= i < |parts| ==> sep !in parts[i]
    ensures Split(Join(parts, [sep]), sep) == parts
  {
    if |parts| == 1 {
      SplitNoSeparator(parts[0], sep);
    } else {
      SplitJoin(parts[1..], sep);
      SplitAfterPiece(parts[0], sep, Join(parts[1..], [sep]));
      assert parts == [parts[0]] + parts[1..];
    }
  }
}
