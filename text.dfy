/**
 * The pieces of Python's `str` and sequence behaviour that the code relies on:
 * slicing a prefix (`s[:n]`), `strip()`, `split(sep)`, `splitlines()`,
 * `startswith` and ASCII case mapping.
 */
module Text {

  function Min(a: int, b: int): int { if a < b then a else b }
  function Max(a: int, b: int): int { if a < b then b else a }

  /**
   * Python's `s[:n]`. For `n >= 0` it keeps the first `n` elements (all of them
   * when `s` is shorter); a negative `n` counts from the end, so `s[:-1]` drops
   * the last element and `s[:-k]` is empty once `k >= |s|`.
   */
  function Prefix<T>(s: seq<T>, n: int): (r: seq<T>)
    ensures r <= s
    ensures 0 <= n < |s| ==> |r| == n
    ensures n >= |s| ==> r == s
    ensures n < 0 ==> |r| == Max(0, |s| + n)
  {
    if n >= |s| then s
    else if n >= 0 then s[..n]
    else if |s| + n <= 0 then []
    else s[..|s| + n]
  }

  /** The characters Python's `str.isspace()` accepts, which `strip()` removes. */
  predicate IsSpace(c: char)
  {
    c == ' ' || ('\t' <= c <= '\r') || ('\U{1c}' <= c <= '\U{1f}') || c == '\U{85}' || c == '\U{a0}'
    || c == '\U{1680}' || ('\U{2000}' <= c <= '\U{200a}') || c == '\U{2028}' || c == '\U{2029}'
    || c == '\U{202f}' || c == '\U{205f}' || c == '\U{3000}'
  }

  /** `s.lstrip()`: the suffix of `s` left after dropping leading whitespace. */
  function TrimStart(s: string): (r: string)
    ensures |r| <= |s|
    ensures r != [] ==> !IsSpace(r[0])
  {
    if s != [] && IsSpace(s[0]) then TrimStart(s[1..]) else s
  }

  /** What `lstrip` leaves is a suffix of `s`. */
  lemma {:induction false} TrimStartSuffix(s: string)
    ensures TrimStart(s) == s[|s| - |TrimStart(s)|..]
  {
    if s != [] && IsSpace(s[0]) {
      TrimStartSuffix(s[1..]);
    }
  }

  /** `lstrip` drops only whitespace. */
  lemma {:induction false} TrimStartDrops(s: string)
    ensures forall k :: 0 <= k < |s| - |TrimStart(s)| ==> IsSpace(s[k])
  {
    if s != [] && IsSpace(s[0]) {
      TrimStartDrops(s[1..]);
      assert forall k :: 1 <= k < |s| ==> s[k] == s[1..][k - 1];
    }
  }

  /** `s.rstrip()`: the prefix of `s` left after dropping trailing whitespace. */
  function TrimEnd(s: string): (r: string)
    ensures |r| <= |s|
    ensures r != [] ==> !IsSpace(r[|r| - 1])
  {
    if s != [] && IsSpace(s[|s| - 1]) then TrimEnd(s[..|s| - 1]) else s
  }

  /** What `rstrip` leaves is a prefix of `s`. */
  lemma {:induction false} TrimEndPrefix(s: string)
    ensures TrimEnd(s) == s[..|TrimEnd(s)|]
  {
    if s != [] && IsSpace(s[|s| - 1]) {
      TrimEndPrefix(s[..|s| - 1]);
    }
  }

  /** `rstrip` drops only whitespace. */
  lemma {:induction false} TrimEndDrops(s: string)
    ensures forall k :: |TrimEnd(s)| <= k < |s| ==> IsSpace(s[k])
  {
    if s != [] && IsSpace(s[|s| - 1]) {
      TrimEndDrops(s[..|s| - 1]);
    }
  }

  /** `s.strip()`. */
  function Strip(s: string): string
  {
    TrimEnd(TrimStart(s))
  }

  /** `Strip` leaves a piece of `s` with no whitespace at either end, and removes only whitespace. */
  lemma StripShape(s: string)
    ensures var r := Strip(s);
      (r != [] ==> !IsSpace(r[0]) && !IsSpace(r[|r| - 1]))
      && (r == [] <==> forall k :: 0 <= k < |s| ==> IsSpace(s[k]))
      && exists a, b :: 0 <= a <= b <= |s| && r == s[a..b]
           && (forall k :: 0 <= k < a ==> IsSpace(s[k]))
           && (forall k :: b <= k < |s| ==> IsSpace(s[k]))
  {
    var t := TrimStart(s);
    var r := TrimEnd(t);
    TrimStartDrops(s);
    TrimEndDrops(t);
    TrimStartSuffix(s);
    TrimEndPrefix(t);
    if r != [] {
      assert r[0] == t[0];
    }
    if r == [] {
      assert t == [];
    }
    var a := |s| - |t|;
    var b := a + |r|;
    assert r == s[a..b];
    forall k | b <= k < |s| ensures IsSpace(s[k]) {
      assert s[k] == t[k - a];
    }
  }

  predicate StartsWith(s: string, p: string)
  {
    |p| <= |s| && s[..|p|] == p
  }

  /** How many times `c` occurs in `s`. */
  function Occurrences<T(==)>(s: seq<T>, c: T): nat
  {
    multiset(s)[c]
  }

  /** `Join(parts, sep)` is `sep.join(parts)`. */
  function Join(parts: seq<string>, sep: char): string
    requires |parts| >= 1
  {
    if |parts| == 1 then parts[0] else parts[0] + [sep] + Join(parts[1..], sep)
  }

  /** Index of the first `c` in `s`, or `|s|` when there is none. */
  function IndexOf(s: string, c: char): (i: nat)
    ensures i <= |s|
    ensures i < |s| ==> s[i] == c
  {
    if s == [] || s[0] == c then 0 else 1 + IndexOf(s[1..], c)
  }

  /** `IndexOf` finds the first occurrence: none comes before it. */
  lemma {:induction false} IndexOfFirst(s: string, c: char)
    ensures c !in s[..IndexOf(s, c)]
  {
    if s != [] && s[0] != c {
      IndexOfFirst(s[1..], c);
      assert s[..IndexOf(s, c)] == [s[0]] + s[1..][..IndexOf(s[1..], c)];
    }
  }

  /**
   * `s.split(sep)` for a one-character separator: the pieces between
   * separators, with empty pieces kept, so `"".split(",") == [""]` and
   * `"a,,b".split(",") == ["a", "", "b"]`.
   */
  function Split(s: string, sep: char): seq<string>
    decreases |s|
  {
    var i := IndexOf(s, sep);
    if i == |s| then [s] else [s[..i]] + Split(s[i + 1..], sep)
  }

  /** `split` makes one more piece than there are separators, and no piece holds one. */
  lemma SplitPieces(s: string, sep: char)
    ensures |Split(s, sep)| == Occurrences(s, sep) + 1
    ensures forall j :: 0 <= j < |Split(s, sep)| ==> sep !in Split(s, sep)[j]
  {
    SplitCount(s, sep);
    SplitNoSeparator(s, sep);
  }

  lemma {:induction false} SplitCount(s: string, sep: char)
    ensures |Split(s, sep)| == Occurrences(s, sep) + 1
    decreases |s|
  {
    var i := IndexOf(s, sep);
    IndexOfFirst(s, sep);
    if i == |s| {
      assert s[..i] == s;
    } else {
      var rest := s[i + 1..];
      SplitCount(rest, sep);
      assert s == s[..i] + [sep] + rest;
    }
  }

  lemma {:induction false} SplitNoSeparator(s: string, sep: char)
    ensures forall j :: 0 <= j < |Split(s, sep)| ==> sep !in Split(s, sep)[j]
    decreases |s|
  {
    var i := IndexOf(s, sep);
    IndexOfFirst(s, sep);
    if i == |s| {
      assert s[..i] == s;
    } else {
      var rest := s[i + 1..];
      SplitNoSeparator(rest, sep);
      var parts := Split(s, sep);
      assert forall j :: 1 <= j < |parts| ==> parts[j] == Split(rest, sep)[j - 1];
    }
  }

  /** Joining the pieces with the separator gives back the split string. */
  lemma {:induction false} JoinSplit(s: string, sep: char)
    ensures Join(Split(s, sep), sep) == s
    decreases |s|
  {
    var i := IndexOf(s, sep);
    if i < |s| {
      JoinSplit(s[i + 1..], sep);
      var parts := Split(s, sep);
      assert parts[1..] == Split(s[i + 1..], sep);
      assert s == s[..i] + [sep] + s[i + 1..];
    }
  }

  /** Splitting the joined pieces gives the pieces back, when no piece holds the separator. */
  lemma {:induction false} SplitJoin(parts: seq<string>, sep: char)
    requires |parts| >= 1
    requires forall j :: 0 <= j < |parts| ==> sep !in parts[j]
    ensures Split(Join(parts, sep), sep) == parts
  {
    var p0 := parts[0];
    if |parts| == 1 {
      IndexOfAbsent(p0, sep);
    } else {
      var rest := parts[1..];
      var s := Join(parts, sep);
      assert Split(Join(rest, sep), sep) == rest by {
        assert forall j :: 0 <= j < |rest| ==> sep !in rest[j] by {
          forall j | 0 <= j < |rest| ensures sep !in rest[j] { assert rest[j] == parts[j + 1]; }
        }
        SplitJoin(rest, sep);
      }
      assert Split(s, sep) == [p0] + Split(Join(rest, sep), sep) by {
        assert s == p0 + ([sep] + Join(rest, sep));
        IndexOfAt(p0, [sep] + Join(rest, sep), sep);
        assert s[..|p0|] == p0 && s[|p0| + 1..] == Join(rest, sep);
      }
      assert parts == [p0] + rest;
    }
  }

  lemma {:induction false} IndexOfAbsent(s: string, c: char)
    requires c !in s
    ensures IndexOf(s, c) == |s|
  {
    if s != [] {
      IndexOfAbsent(s[1..], c);
    }
  }

  lemma {:induction false} IndexOfAt(p: string, t: string, c: char)
    requires c !in p
    requires t != [] && t[0] == c
    ensures IndexOf(p + t, c) == |p|
  {
    if p != [] {
      assert (p + t)[1..] == p[1..] + t;
      IndexOfAt(p[1..], t, c);
    }
  }

  /** A string that splits into exactly two pieces is cut at its first separator. */
  lemma SplitTwo(s: string, sep: char)
    requires |Split(s, sep)| == 2
    ensures IndexOf(s, sep) < |s|
    ensures Split(s, sep) == [s[..IndexOf(s, sep)], s[IndexOf(s, sep) + 1..]]
  {
    SplitCut(s, sep);
    SplitCut(s[IndexOf(s, sep) + 1..], sep);
  }

  /** A string holding the separator splits into at least two pieces. */
  lemma SplitCut(s: string, sep: char)
    ensures IndexOf(s, sep) < |s| ==> |Split(s, sep)| >= 2
  {
    var i := IndexOf(s, sep);
    if i < |s| {
      assert |Split(s[i + 1..], sep)| >= 1;
    }
  }

  /** Two separator-free pieces joined by the separator split back into those two. */
  lemma SplitAround(p: string, q: string, sep: char)
    requires sep !in p && sep !in q
    ensures Split(p + [sep] + q, sep) == [p, q]
  {
    var s := p + [sep] + q;
    assert s == p + ([sep] + q);
    IndexOfAt(p, [sep] + q, sep);
    assert s[|p| + 1..] == q;
    IndexOfAbsent(q, sep);
  }

  /** Text with no whitespace at either end is its own strip. */
  lemma StripUnchanged(s: string)
    requires s != [] && !IsSpace(s[0]) && !IsSpace(s[|s| - 1])
    ensures Strip(s) == s
  {
    assert TrimStart(s) == s;
  }

  /** Stripping ignores one whitespace character at the front. */
  lemma StripSpaceBefore(c: char, s: string)
    requires IsSpace(c)
    ensures Strip([c] + s) == Strip(s)
  {
    assert ([c] + s)[1..] == s;
  }

  /** Stripping ignores a whitespace character after text that starts with none. */
  lemma StripSpaceAfter(s: string, c: char)
    requires s != [] && !IsSpace(s[0]) && IsSpace(c)
    ensures Strip(s + [c]) == Strip(s)
  {
    assert (s + [c])[0] == s[0];
    assert (s + [c])[..|s|] == s;
  }

  /** The line boundaries of Python's `str.splitlines()`. */
  predicate IsLineBreak(c: char)
  {
    c == '\n' || c == '\r' || c == '\U{0b}' || c == '\U{0c}' || ('\U{1c}' <= c <= '\U{1e}')
    || c == '\U{85}' || c == '\U{2028}' || c == '\U{2029}'
  }

  /** Index of the first line boundary in `s`, or `|s|` when there is none. */
  function FirstBreak(s: string): (i: nat)
    ensures i <= |s|
    ensures i < |s| ==> IsLineBreak(s[i])
  {
    if s == [] || IsLineBreak(s[0]) then 0 else 1 + FirstBreak(s[1..])
  }

  /**
   * `s.splitlines()`: the lines of `s` without their terminators. `"\r\n"` is one
   * terminator, and a final terminator does not start an extra empty line, so
   * `"".splitlines() == []` and `"a\n".splitlines() == ["a"]`.
   */
  function SplitLines(s: string): seq<string>
    decreases |s|
  {
    if s == [] then []
    else
      var i := FirstBreak(s);
      if i == |s| then [s]
      else
        var width := if s[i] == '\r' && i + 1 < |s| && s[i + 1] == '\n' then 2 else 1;
        [s[..i]] + SplitLines(s[i + width..])
  }

  /** No line `splitlines` returns holds a line boundary. */
  lemma {:induction false} SplitLinesNoBreaks(s: string)
    ensures forall j, k :: 0 <= j < |SplitLines(s)| && 0 <= k < |SplitLines(s)[j]| ==> !IsLineBreak(SplitLines(s)[j][k])
    decreases |s|
  {
    if s != [] {
      var i := FirstBreak(s);
      if i == |s| {
        FirstBreakFirst(s);
      } else {
        var width := if s[i] == '\r' && i + 1 < |s| && s[i + 1] == '\n' then 2 else 1;
        var tail := SplitLines(s[i + width..]);
        var lines := SplitLines(s);
        SplitLinesNoBreaks(s[i + width..]);
        assert lines == [s[..i]] + tail;
        forall j, k | 0 <= j < |lines| && 0 <= k < |lines[j]|
          ensures !IsLineBreak(lines[j][k])
        {
          if j == 0 {
            FirstBreakFirst(s);
          } else {
            assert lines[j] == tail[j - 1];
          }
        }
      }
    }
  }

  /** No line boundary comes before the one `FirstBreak` finds. */
  lemma {:induction false} FirstBreakFirst(s: string)
    ensures forall k :: 0 <= k < FirstBreak(s) ==> !IsLineBreak(s[k])
  {
    if s != [] && !IsLineBreak(s[0]) {
      FirstBreakFirst(s[1..]);
      assert forall k :: 1 <= k < |s| ==> s[k] == s[1..][k - 1];
    }
  }

  /** Lines each followed by `"\n"`, as a text file holds them. */
  function Terminated(lines: seq<string>): string
  {
    if lines == [] then [] else lines[0] + "\n" + Terminated(lines[1..])
  }

  /** `splitlines` recovers exactly the lines that were written one per `"\n"`. */
  lemma {:induction false} SplitLinesTerminated(lines: seq<string>)
    requires forall j, k :: 0 <= j < |lines| && 0 <= k < |lines[j]| ==> !IsLineBreak(lines[j][k])
    ensures SplitLines(Terminated(lines)) == lines
  {
    if lines != [] {
      var s := Terminated(lines);
      var l := lines[0];
      var rest := Terminated(lines[1..]);
      assert s == l + (['\n'] + rest);
      assert FirstBreak(s) == |l| by {
        FirstBreakAt(l, ['\n'] + rest);
      }
      assert s[|l|] == '\n' && s[..|l|] == l && s[|l| + 1..] == rest;
      assert SplitLines(s) == [l] + SplitLines(rest);
      assert SplitLines(rest) == lines[1..] by {
        var tail := lines[1..];
        assert forall j :: 0 <= j < |tail| ==> tail[j] == lines[j + 1];
        SplitLinesTerminated(tail);
      }
    }
  }

  lemma {:induction false} FirstBreakAt(l: string, t: string)
    requires forall k :: 0 <= k < |l| ==> !IsLineBreak(l[k])
    requires t != [] && IsLineBreak(t[0])
    ensures FirstBreak(l + t) == |l|
  {
    if l != [] {
      assert (l + t)[1..] == l[1..] + t;
      FirstBreakAt(l[1..], t);
    }
  }

  /** ASCII-only `str.upper()` of one character. */
  function UpperChar(c: char): char
  {
    if 'a' <= c <= 'z' then (c as int - 32) as char else c
  }

  /** ASCII-only `str.lower()` of one character, the folding SQLite's `LIKE` applies. */
  function LowerChar(c: char): char
  {
    if 'A' <= c <= 'Z' then (c as int + 32) as char else c
  }

  predicate IsLowerLetter(c: char)
  {
    'a' <= c <= 'z'
  }

  predicate IsUpperLetter(c: char)
  {
    'A' <= c <= 'Z'
  }

  /**
   * ASCII `str.upper()`: no lower-case letter is left, every other character
   * stays where it was, and the text is unchanged up to case.
   */
  function Upper(s: string): (r: string)
    ensures |r| == |s|
    ensures forall k :: 0 <= k < |r| ==> !IsLowerLetter(r[k])
    ensures forall k :: 0 <= k < |s| && !IsLowerLetter(s[k]) ==> r[k] == s[k]
    ensures Lower(r) == Lower(s)
  {
    var r := seq(|s|, k requires 0 <= k < |s| => UpperChar(s[k]));
    assert forall k :: 0 <= k < |s| ==> LowerChar(r[k]) == LowerChar(s[k]);
    assert Lower(r) == Lower(s);
    r
  }

  /**
   * ASCII lower-casing: every upper-case letter becomes its lower-case partner
   * (32 code points up), so none is left, and every other character stays.
   */
  function Lower(s: string): (r: string)
    ensures |r| == |s|
    ensures forall k :: 0 <= k < |s| && IsUpperLetter(s[k]) ==> r[k] as int == s[k] as int + 32
    ensures forall k :: 0 <= k < |r| ==> !IsUpperLetter(r[k])
    ensures forall k :: 0 <= k < |s| && !IsUpperLetter(s[k]) ==> r[k] == s[k]
  {
    seq(|s|, k requires 0 <= k < |s| => LowerChar(s[k]))
  }

  /** Upper-casing twice is upper-casing once. */
  lemma UpperIdempotent(s: string)
    ensures Upper(Upper(s)) == Upper(s)
  {
    var u := Upper(s);
    assert forall k :: 0 <= k < |u| ==> Upper(u)[k] == u[k];
  }

  /** Lower-casing twice is lower-casing once. */
  lemma LowerIdempotent(s: string)
    ensures Lower(Lower(s)) == Lower(s)
  {
    var l := Lower(s);
    assert forall k :: 0 <= k < |l| ==> Lower(l)[k] == l[k];
  }

  /** Lower-casing works character by character from the front. */
  lemma LowerCons(s: string)
    requires s != []
    ensures Lower(s) == [LowerChar(s[0])] + Lower(s[1..])
  {
    assert forall k :: 0 <= k < |s| ==> Lower(s)[k] == LowerChar(s[k]);
  }
}
