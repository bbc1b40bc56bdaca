/**
 * The JavaScript string operations the server relies on: `indexOf`,
 * `split` and `join` with a non-empty separator, `trim`, ASCII
 * `toLowerCase`, `startsWith` (Dafny's prefix `<=`) and decimal rendering.
 */
module Strings {

  const CRLF: string := "\r\n"

  /** `pat` occurs in `s` at index `i`. */
  ghost predicate OccursAt(s: string, pat: string, i: int) {
    0 <= i && i + |pat| <= |s| && s[i..i + |pat|] == pat
  }

  /** `pat` occurs somewhere in `s`. */
  ghost predicate Contains(s: string, pat: string) {
    exists i :: OccursAt(s, pat, i)
  }

  /** Index of the first occurrence of `pat` in `s` at or after `from`, or -1. */
  function IndexFrom(s: string, pat: string, from: nat): (r: int)
    requires from <= |s|
    ensures r == -1 || (from <= r && OccursAt(s, pat, r))
    ensures r == -1 ==> forall j :: from <= j ==> !OccursAt(s, pat, j)
    ensures r >= 0 ==> forall j :: from <= j < r ==> !OccursAt(s, pat, j)
    decreases |s| - from
  {
    if from + |pat| > |s| then -1
    else if s[from..from + |pat|] == pat then from
    else IndexFrom(s, pat, from + 1)
  }

  /** `s.indexOf(pat)`: the first occurrence of `pat`, or -1 when there is none. */
  function IndexOf(s: string, pat: string): (r: int)
    ensures r == -1 <==> !Contains(s, pat)
    ensures r >= 0 ==> OccursAt(s, pat, r) && forall j :: 0 <= j < r ==> !OccursAt(s, pat, j)
  {
    IndexFrom(s, pat, 0)
  }

  /** `parts.join(sep)`. */
  function Join(parts: seq<string>, sep: string): string
  {
    if parts == [] then ""
    else if |parts| == 1 then parts[0]
    else parts[0] + sep + Join(parts[1..], sep)
  }

  /** An occurrence inside the first `n` characters is an occurrence in that prefix. */
  lemma OccursInPrefix(s: string, pat: string, k: int, n: int)
    requires 0 <= n && k + |pat| <= n <= |s|
    ensures OccursAt(s[..n], pat, k) <==> OccursAt(s, pat, k)
  {
    if 0 <= k {
      assert s[..n][k..k + |pat|] == s[k..k + |pat|];
    }
  }

  /** The first occurrence in a prefix is the first occurrence overall, if it fits in the prefix. */
  lemma IndexOfPrefix(s: string, pat: string, n: int)
    requires pat != [] && 0 <= n <= |s|
    ensures var j := IndexOf(s, pat);
      IndexOf(s[..n], pat) == if 0 <= j && j + |pat| <= n then j else -1
  {
    var j := IndexOf(s, pat);
    var r := IndexOf(s[..n], pat);
    if r >= 0 {
      OccursInPrefix(s, pat, r, n);
    }
    if 0 <= j && j + |pat| <= n {
      OccursInPrefix(s, pat, j, n);
    }
  }

  /** A one-character pattern occurs exactly where that character stands. */
  lemma OccursAtChar(s: string, c: char, i: int)
    ensures OccursAt(s, [c], i) <==> 0 <= i < |s| && s[i] == c
  {
    if 0 <= i < |s| {
      assert s[i..i + 1] == [s[i]];
    }
  }

  /** A one-character pattern is contained exactly when the character is. */
  lemma ContainsChar(s: string, c: char)
    ensures Contains(s, [c]) <==> c in s
  {
    if c in s {
      var k :| 0 <= k < |s| && s[k] == c;
      OccursAtChar(s, c, k);
    }
    if Contains(s, [c]) {
      var k :| OccursAt(s, [c], k);
      OccursAtChar(s, c, k);
    }
  }

  /** A pattern whose first character is absent from `s` does not occur in it. */
  lemma AbsentWithoutFirstChar(s: string, pat: string)
    requires pat != [] && pat[0] !in s
    ensures !Contains(s, pat)
  {
    forall j ensures !OccursAt(s, pat, j) {
      if 0 <= j && j + |pat| <= |s| {
        assert s[j..j + |pat|][0] == s[j];
      }
    }
  }

  /** An occurrence with none before it is the one `IndexOf` finds. */
  lemma IndexOfIs(s: string, pat: string, i: int)
    requires OccursAt(s, pat, i)
    requires forall j :: 0 <= j < i ==> !OccursAt(s, pat, j)
    ensures IndexOf(s, pat) == i
  {
  }

  /** Cutting `s` into three consecutive pieces. */
  lemma Cut3(s: string, i: int, n: int)
    requires 0 <= i && 0 <= n && i + n <= |s|
    ensures s == s[..i] + s[i..i + n] + s[i + n..]
  {
  }

  /** Unfolds `Join` once. */
  lemma JoinCons(parts: seq<string>, sep: string)
    requires |parts| >= 1
    ensures Join(parts, sep) == if |parts| == 1 then parts[0] else parts[0] + sep + Join(parts[1..], sep)
  {
  }

  /** The first three parts of a join, separated, then the rest. */
  lemma JoinThree(parts: seq<string>, sep: string)
    requires |parts| >= 3
    ensures Join(parts, sep) == parts[0] + sep + parts[1] + sep + parts[2]
                                + (if |parts| == 3 then [] else sep + Join(parts[3..], sep))
  {
    var rest: string := if |parts| == 3 then [] else sep + Join(parts[3..], sep);
    var j2 := Join(parts[2..], sep);
    var j1 := Join(parts[1..], sep);
    assert j2 == parts[2] + rest by {
      JoinCons(parts[2..], sep);
      if |parts| > 3 {
        assert parts[2..][1..] == parts[3..];
      }
    }
    assert j1 == parts[1] + sep + j2 by {
      JoinCons(parts[1..], sep);
      assert parts[1..][1..] == parts[2..];
    }
    JoinCons(parts, sep);
    calc {
      Join(parts, sep);
      parts[0] + sep + j1;
      parts[0] + sep + (parts[1] + sep + (parts[2] + rest));
      { Assoc5(parts[0], sep, parts[1], sep, parts[2], rest); }
      parts[0] + sep + parts[1] + sep + parts[2] + rest;
    }
  }

  lemma Assoc5(a: string, b: string, c: string, d: string, e: string, f: string)
    ensures a + b + (c + d + (e + f)) == a + b + c + d + e + f
  {
  }

  /** A prefix of `s` that ends before the first occurrence of `pat` does not contain `pat`. */
  lemma PrefixBeforeFirstOccurrence(s: string, pat: string, i: int)
    requires pat != [] && 0 <= i <= |s|
    requires forall j :: 0 <= j < i ==> !OccursAt(s, pat, j)
    ensures !Contains(s[..i], pat)
  {
    if Contains(s[..i], pat) {
      var k :| OccursAt(s[..i], pat, k);
      assert s[..i][k..k + |pat|] == s[k..k + |pat|];
      assert OccursAt(s, pat, k);
    }
  }

  /**
   * `s.split(sep)` for a non-empty separator: the pieces between the
   * occurrences of `sep`, found left to right. Joining the pieces with `sep`
   * gives `s` back, and no piece contains `sep`.
   */
  function Split(s: string, sep: string): (parts: seq<string>)
    requires sep != []
    ensures |parts| >= 1
    ensures Join(parts, sep) == s
    ensures forall k :: 0 <= k < |parts| ==> !Contains(parts[k], sep)
    decreases |s|
  {
    var i := IndexOf(s, sep);
    if i < 0 then [s]
    else
      PrefixBeforeFirstOccurrence(s, sep, i);
      assert s == s[..i] + sep + s[i + |sep|..];
      [s[..i]] + Split(s[i + |sep|..], sep)
  }

  /** The first piece of a split is the text before the first separator, or all of `s`. */
  lemma SplitHead(s: string, sep: string)
    requires sep != []
    ensures var i := IndexOf(s, sep);
      Split(s, sep)[0] == if i < 0 then s else s[..i]
  {
  }

  /** Splitting pieces joined on a one-character separator they do not contain gives them back. */
  lemma {:induction false} SplitJoin(parts: seq<string>, c: char)
    requires |parts| >= 1
    requires forall k :: 0 <= k < |parts| ==> c !in parts[k]
    ensures Split(Join(parts, [c]), [c]) == parts
    decreases |parts|
  {
    var p0 := parts[0];
    AbsentWithoutFirstChar(p0, [c]);
    if |parts| > 1 {
      var rest := Join(parts[1..], [c]);
      var s := p0 + [c] + rest;
      JoinCons(parts, [c]);
      OccursAtChar(s, c, |p0|);
      forall j | 0 <= j < |p0| ensures !OccursAt(s, [c], j) {
        OccursAtChar(s, c, j);
        assert s[j] == p0[j];
      }
      IndexOfIs(s, [c], |p0|);
      assert s[..|p0|] == p0 && s[|p0| + 1..] == rest;
      SplitJoin(parts[1..], c);
      assert [p0] + parts[1..] == parts;
    }
  }

  /**
   * Splitting pieces joined on a two-character separator whose characters
   * differ, and that no piece contains, gives them back: such a separator
   * cannot overlap itself, so no occurrence straddles a piece's end.
   */
  lemma {:induction false} SplitJoinPair(parts: seq<string>, a: char, b: char)
    requires |parts| >= 1 && a != b
    requires forall k :: 0 <= k < |parts| ==> !Contains(parts[k], [a, b])
    ensures Split(Join(parts, [a, b]), [a, b]) == parts
    decreases |parts|
  {
    var sep := [a, b];
    var p0 := parts[0];
    if |parts| > 1 {
      var rest := Join(parts[1..], sep);
      var s := p0 + sep + rest;
      JoinCons(parts, sep);
      assert s[|p0|..|p0| + 2] == sep;
      forall j | 0 <= j < |p0| ensures !OccursAt(s, sep, j) {
        if j + 2 <= |p0| {
          assert s[j..j + 2] == p0[j..j + 2];
          assert !OccursAt(p0, sep, j);
        } else {
          assert s[j..j + 2][1] == s[j + 1] == a;
        }
      }
      IndexOfIs(s, sep, |p0|);
      assert s[..|p0|] == p0 && s[|p0| + 2..] == rest;
      SplitJoinPair(parts[1..], a, b);
      assert [p0] + parts[1..] == parts;
    }
  }

  /** Splitting lines joined with CRLF, none of which holds a CRLF, gives the lines back. */
  lemma SplitJoinLines(lines: seq<string>)
    requires |lines| >= 1
    requires forall k :: 0 <= k < |lines| ==> !Contains(lines[k], CRLF)
    ensures Split(Join(lines, CRLF), CRLF) == lines
  {
    assert CRLF == ['\r', '\n'];
    SplitJoinPair(lines, '\r', '\n');
  }

  /** Joining with an empty last piece adds a trailing separator. */
  lemma {:induction false} JoinTrailingEmpty(parts: seq<string>, sep: string)
    requires |parts| >= 1
    ensures Join(parts + [""], sep) == Join(parts, sep) + sep
    decreases |parts|
  {
    if |parts| == 1 {
      assert (parts + [""])[1..] == [""];
    } else {
      assert (parts + [""])[1..] == parts[1..] + [""];
      JoinTrailingEmpty(parts[1..], sep);
    }
  }

  /** Number of occurrences of `c` in `s`. */
  function Count(s: string, c: char): nat {
    multiset(s)[c]
  }

  /**
   * Splitting on a one-character separator yields one more piece than there
   * are occurrences of that character.
   */
  lemma {:induction false} SplitCharCount(s: string, c: char)
    ensures |Split(s, [c])| == Count(s, c) + 1
    decreases |s|
  {
    var i := IndexOf(s, [c]);
    if i < 0 {
      if c in multiset(s) {
        var k :| 0 <= k < |s| && s[k] == c;
        assert s[k..k + 1] == [c];
        assert OccursAt(s, [c], k);
      }
    } else {
      assert s[i..i + 1] == [c];
      forall j | 0 <= j < i ensures s[j] != c {
        if s[j] == c {
          assert s[j..j + 1] == [c];
          assert OccursAt(s, [c], j);
        }
      }
      assert c !in multiset(s[..i]);
      assert s == s[..i] + [c] + s[i + 1..];
      SplitCharCount(s[i + 1..], c);
    }
  }

  /**
   * The JavaScript white-space and line-terminator characters, which `trim`
   * removes: tab, line feed, vertical tab, form feed, carriage return, space,
   * no-break space, the byte-order mark, the line and paragraph separators and
   * the remaining space separators.
   */
  predicate IsSpace(c: char) {
    c == '\t' || c == '\n' || c == '\U{000B}' || c == '\U{000C}' || c == '\r'
    || c == ' ' || c == '\U{00A0}' || c == '\U{1680}'
    || ('\U{2000}' <= c <= '\U{200A}')
    || c == '\U{2028}' || c == '\U{2029}' || c == '\U{202F}' || c == '\U{205F}'
    || c == '\U{3000}' || c == '\U{FEFF}'
  }

  predicate AllSpace(s: string) {
    forall i :: 0 <= i < |s| ==> IsSpace(s[i])
  }

  /** `s` with its leading white space removed. */
  function TrimStart(s: string): (r: string)
    ensures |r| <= |s| && r == s[|s| - |r|..]
    ensures AllSpace(s[..|s| - |r|])
    ensures r == [] || !IsSpace(r[0])
  {
    if s != [] && IsSpace(s[0]) then TrimStart(s[1..]) else s
  }

  /** `s` with its trailing white space removed. */
  function TrimEnd(s: string): (r: string)
    ensures |r| <= |s| && r == s[..|r|]
    ensures AllSpace(s[|r|..])
    ensures r == [] || !IsSpace(r[|r| - 1])
  {
    if s != [] && IsSpace(s[|s| - 1]) then TrimEnd(s[..|s| - 1]) else s
  }

  /**
   * `s.trim()`: `s` without leading and trailing white space. The result is
   * empty exactly when `s` is all white space, and otherwise begins and ends
   * with a character that is not white space.
   */
  function Trim(s: string): (r: string)
    ensures |r| <= |s|
    ensures r == [] <==> AllSpace(s)
    ensures r != [] ==> !IsSpace(r[0]) && !IsSpace(r[|r| - 1])
  {
    TrimmedIsEmptyIffAllSpace(s);
    TrimEnd(TrimStart(s))
  }

  lemma TrimmedIsEmptyIffAllSpace(s: string)
    ensures TrimEnd(TrimStart(s)) == [] <==> AllSpace(s)
    ensures TrimEnd(TrimStart(s)) != [] ==> !IsSpace(TrimEnd(TrimStart(s))[0])
  {
    var t := TrimStart(s);
    var r := TrimEnd(t);
    if t == [] {
      assert s[..|s|] == s;
    } else {
      assert s[|s| - |t|] == t[0];
      if r != [] {
        assert r[0] == t[0];
      }
    }
  }

  /** Leading white space is exactly what `TrimStart` drops. */
  lemma {:induction false} TrimStartPadded(a: string, x: string)
    requires AllSpace(a)
    requires x == [] || !IsSpace(x[0])
    ensures TrimStart(a + x) == x
    decreases |a|
  {
    if a != [] {
      assert (a + x)[1..] == a[1..] + x;
      TrimStartPadded(a[1..], x);
    }
  }

  /** Trailing white space is exactly what `TrimEnd` drops. */
  lemma {:induction false} TrimEndPadded(x: string, b: string)
    requires AllSpace(b)
    requires x == [] || !IsSpace(x[|x| - 1])
    ensures TrimEnd(x + b) == x
    decreases |b|
  {
    if b != [] {
      assert (x + b)[..|x + b| - 1] == x + b[..|b| - 1];
      TrimEndPadded(x, b[..|b| - 1]);
    } else {
      assert x + b == x;
    }
  }

  /** Trimming a padded string gives back the unpadded middle. */
  lemma TrimPadded(a: string, x: string, b: string)
    requires AllSpace(a) && AllSpace(b)
    requires x == [] || (!IsSpace(x[0]) && !IsSpace(x[|x| - 1]))
    ensures Trim(a + x + b) == x
  {
    if x == [] {
      assert a + x + b == a + b;
      assert AllSpace(a + b) by {
        forall i | 0 <= i < |a + b| ensures IsSpace((a + b)[i]) {
          if i >= |a| { assert (a + b)[i] == b[i - |a|]; }
        }
      }
    } else {
      assert a + x + b == a + (x + b);
      TrimStartPadded(a, x + b);
      TrimEndPadded(x, b);
    }
  }

  /** ASCII upper-case letters mapped to lower case; every other character kept. */
  function LowerChar(c: char): char {
    if 'A' <= c <= 'Z' then (c as int + 32) as char else c
  }

  /** `s.toLowerCase()` over the ASCII letters. */
  function ToLower(s: string): (r: string)
    ensures |r| == |s|
    ensures forall i :: 0 <= i < |s| ==> r[i] == LowerChar(s[i])
  {
    if s == [] then [] else [LowerChar(s[0])] + ToLower(s[1..])
  }

  /** `s.substring(start)` for a non-negative start: empty once start passes the end. */
  function SubstringFrom(s: string, start: nat): (r: string)
    ensures start <= |s| ==> s == s[..start] + r
    ensures start >= |s| ==> r == []
  {
    if start >= |s| then "" else s[start..]
  }
}
