/**
 * The POSIX flavour of Node's `path.normalize`, `path.join` and
 * `path.extname`, with `/` as the separator: a path is a list of segments
 * separated by `/`; empty and `.` segments vanish, and `..` cancels the
 * segment before it. An absolute path cannot climb above the root; a
 * relative one keeps the `..` segments it cannot cancel.
 */
module PosixPath {
  import opened Strings

  const Sep: string := "/"

  /** One segment's effect on the segments resolved so far. */
  function ResolveStep(stack: seq<string>, seg: string, allowAboveRoot: bool): seq<string> {
    if seg == "" || seg == "." then stack
    else if seg == ".." then
      if |stack| > 0 && stack[|stack| - 1] != ".." then stack[..|stack| - 1]
      else if allowAboveRoot then stack + [".."]
      else stack
    else stack + [seg]
  }

  /** The segments left after resolving `segs` first to last. */
  function Resolve(segs: seq<string>, allowAboveRoot: bool): seq<string>
    decreases |segs|
  {
    if segs == [] then []
    else ResolveStep(Resolve(segs[..|segs| - 1], allowAboveRoot), segs[|segs| - 1], allowAboveRoot)
  }

  /** The text of a normalized path, from its resolved segments and the shape of the input. */
  function NormalForm(isAbsolute: bool, trailingSeparator: bool, segs: seq<string>): string {
    var r := Join(segs, Sep);
    if r == "" then (if isAbsolute then "/" else if trailingSeparator then "./" else ".")
    else (if isAbsolute then "/" else "") + r + (if trailingSeparator then "/" else "")
  }

  /** `path.normalize(p)`. */
  function Normalize(p: string): string {
    if p == "" then "."
    else
      var isAbsolute := p[0] == '/';
      var trailingSeparator := p[|p| - 1] == '/';
      NormalForm(isAbsolute, trailingSeparator, Resolve(Split(p, Sep), !isAbsolute))
  }

  /** `path.join(a, b)`: the non-empty arguments joined with `/`, then normalized. */
  function PathJoin(a: string, b: string): string {
    var joined := if a == "" then b else if b == "" then a else a + Sep + b;
    if joined == "" then "." else Normalize(joined)
  }

  /** `s.replace(/^(\.\.(\/|\\|$))+/, "")`: every leading `../`, `..\` and a final bare `..` removed. */
  function StripLeadingDotDot(s: string): (r: string)
    ensures |r| <= |s| && r == s[|s| - |r|..]
    ensures DotDotRun(s[..|s| - |r|])
    ensures !DotDotPiece(r) && !IsDotDot(r)
    ensures r != [] ==> DotDotPieces(s[..|s| - |r|])
    ensures !DotDotPiece(s) && !IsDotDot(s) ==> r == s
    decreases |s|
  {
    if DotDotPiece(s) then
      var r := StripLeadingDotDot(s[3..]);
      assert s[..|s| - |r|][..3] == s[..3] && s[..|s| - |r|][3..] == s[3..][..|s| - 3 - |r|];
      r
    else if IsDotDot(s) then ""
    else s
  }

  /** `s` starts with `../` or `..\`, compared character by character. */
  predicate DotDotPiece(s: string) {
    |s| >= 3 && s[0] == '.' && s[1] == '.' && (s[2] == '/' || s[2] == '\\')
  }

  /** A run of `../` and `..\` pieces, possibly ending in a bare `..`: what the strip removes. */
  predicate DotDotRun(t: string)
    decreases |t|
  {
    t == [] || IsDotDot(t) || (DotDotPiece(t) && DotDotRun(t[3..]))
  }

  /** A run of `../` and `..\\` pieces only. */
  predicate DotDotPieces(t: string)
    decreases |t|
  {
    t == [] || (DotDotPiece(t) && DotDotPieces(t[3..]))
  }

  /** `p` without its trailing separators. */
  function TrimTrailingSeparators(p: string): (r: string)
    ensures r <= p && (r == [] || r[|r| - 1] != '/')
    ensures forall k :: |r| <= k < |p| ==> p[k] == '/'
    decreases |p|
  {
    if p != [] && p[|p| - 1] == '/' then TrimTrailingSeparators(p[..|p| - 1]) else p
  }

  /** Index of the last `c` in `s`, or -1. */
  function LastIndexOfChar(s: string, c: char): (r: int)
    ensures -1 <= r < |s|
  {
    if s == [] then -1
    else if s[|s| - 1] == c then |s| - 1
    else LastIndexOfChar(s[..|s| - 1], c)
  }

  /** The last segment of `p`, ignoring trailing separators. */
  function Basename(p: string): string {
    var t := TrimTrailingSeparators(p);
    t[LastIndexOfChar(t, '/') + 1..]
  }

  /**
   * `path.extname(p)`: the last segment from its last `.` on; empty when the
   * segment has no `.`, when its only leading `.` is its first character, or
   * when it is `..`.
   */
  function Extname(p: string): string {
    var base := Basename(p);
    var dot := LastIndexOfChar(base, '.');
    if dot <= 0 || IsDotDot(base) then "" else base[dot..]
  }

  /** The segment `..`, compared character by character. */
  predicate IsDotDot(s: string) {
    |s| == 2 && s[0] == '.' && s[1] == '.'
  }

  // ---------------------------------------------------------------------
  // What normalization promises
  // ---------------------------------------------------------------------

  /** A segment that survives resolution as written: not empty, not `.`, not `..`. */
  predicate Plain(seg: string) {
    seg != "" && seg != "." && seg != ".."
  }

  /**
   * Resolution keeps only plain input segments and `..`; and with climbing
   * above the root forbidden it keeps no `..` at all.
   */
  lemma {:induction false} ResolveKeeps(segs: seq<string>, allowAboveRoot: bool)
    ensures forall x :: x in Resolve(segs, allowAboveRoot) ==> x == ".." || (Plain(x) && x in segs)
    ensures !allowAboveRoot ==> ".." !in Resolve(segs, allowAboveRoot)
    decreases |segs|
  {
    if segs != [] {
      var init := segs[..|segs| - 1];
      ResolveKeeps(init, allowAboveRoot);
      var stack := Resolve(init, allowAboveRoot);
      var seg := segs[|segs| - 1];
      var res := Resolve(segs, allowAboveRoot);
      forall x | x in res ensures x in stack || (x == seg && Plain(seg)) || x == ".." {
        if seg == ".." && |stack| > 0 && stack[|stack| - 1] != ".." {
          var k :| 0 <= k < |res| && res[k] == x;
          assert stack[k] == x;
        }
      }
      forall x | x in res ensures x == ".." || (Plain(x) && x in segs) {
        if x in stack && x != ".." {
          var k :| 0 <= k < |init| && init[k] == x;
          assert segs[k] == x;
        } else if x == seg {
          assert segs[|segs| - 1] == x;
        }
      }
    }
  }

  /** The resolved segments of a path contain no separator. */
  lemma ResolvedHaveNoSeparator(p: string, allowAboveRoot: bool)
    ensures forall x :: x in Resolve(Split(p, Sep), allowAboveRoot) ==> '/' !in x
  {
    var parts := Split(p, Sep);
    ResolveKeeps(parts, allowAboveRoot);
    forall x | x in Resolve(parts, allowAboveRoot) ensures '/' !in x {
      if x != ".." {
        var k :| 0 <= k < |parts| && parts[k] == x;
        ContainsChar(x, '/');
      }
    }
  }

  /** The resolved segments of an absolute path: no separator in them, and none is `..`. */
  lemma ResolvedAbsoluteSegments(p: string)
    ensures forall x :: x in Resolve(Split(p, Sep), false) ==> '/' !in x && x != ".."
  {
    ResolveKeeps(Split(p, Sep), false);
    ResolvedHaveNoSeparator(p, false);
  }

  /** The segments of `/`: two empty ones. */
  lemma SplitRoot()
    ensures Split("/", Sep) == ["", ""]
  {
    IndexOfIs("/", Sep, 0);
    assert "/"[1..] == "";
  }

  /** The segments of `/` followed by resolved segments, with or without a trailing `/`. */
  lemma SegmentsOfRooted(stack: seq<string>, trailing: bool)
    requires stack != []
    requires forall x :: x in stack ==> '/' !in x && x != ".."
    ensures ".." !in Split("/" + Join(stack, Sep) + (if trailing then "/" else ""), Sep)
  {
    var parts := [""] + stack + (if trailing then [""] else []);
    RootedJoin(stack, trailing);
    forall k | 0 <= k < |parts| ensures '/' !in parts[k] && parts[k] != ".." {
      if 1 <= k <= |stack| {
        assert parts[k] == stack[k - 1];
      }
    }
    SplitJoin(parts, '/');
  }

  /** A rooted path is the join of an empty first segment, its segments and an empty last one if it ends in `/`. */
  lemma RootedJoin(stack: seq<string>, trailing: bool)
    requires stack != []
    ensures "/" + Join(stack, Sep) + (if trailing then "/" else "")
            == Join([""] + stack + (if trailing then [""] else []), Sep)
  {
    JoinCons([""] + stack, Sep);
    assert ([""] + stack)[1..] == stack;
    if trailing {
      JoinTrailingEmpty([""] + stack, Sep);
    } else {
      assert [""] + stack + [] == [""] + stack;
    }
  }

  /** A rooted normal form built from segments without separators or `..` has no `..` segment. */
  lemma RootedNormalForm(trailing: bool, stack: seq<string>)
    requires forall x :: x in stack ==> '/' !in x && x != ".."
    ensures var n := NormalForm(true, trailing, stack);
      n != "" && n[0] == '/' && ".." !in Split(n, Sep)
  {
    if Join(stack, Sep) == "" {
      SplitRoot();
    } else {
      SegmentsOfRooted(stack, trailing);
    }
  }

  /** The segments of an absolute path's normal form: none of them is `..`. */
  lemma NormalizeAbsolute(p: string)
    requires p != "" && p[0] == '/'
    ensures var n := Normalize(p);
      n != "" && n[0] == '/' && ".." !in Split(n, Sep)
  {
    ResolvedAbsoluteSegments(p);
    RootedNormalForm(p[|p| - 1] == '/', Resolve(Split(p, Sep), false));
  }

  /** Joining anything onto an absolute path gives an absolute path with no `..` segment. */
  lemma JoinOntoAbsolute(root: string, x: string)
    requires root != "" && root[0] == '/'
    ensures var j := PathJoin(root, x);
      j != "" && j[0] == '/' && ".." !in Split(j, Sep)
  {
    var joined := if x == "" then root else root + Sep + x;
    NormalizeAbsolute(joined);
  }

  /** No two separators in a row. */
  predicate NoDoubleSeparator(s: string) {
    forall i :: 0 <= i < |s| - 1 ==> !(s[i] == '/' && s[i + 1] == '/')
  }

  /** Non-empty segments without separators join into text that has no `//` and neither starts nor ends with `/`. */
  lemma {:induction false} JoinedSegmentsShape(segs: seq<string>)
    requires segs != []
    requires forall x :: x in segs ==> x != "" && '/' !in x
    ensures var r := Join(segs, Sep);
      r != "" && r[0] != '/' && r[|r| - 1] != '/' && NoDoubleSeparator(r)
    decreases |segs|
  {
    JoinCons(segs, Sep);
    var s0 := segs[0];
    assert s0 in segs;
    assert s0[0] in s0;
    if |segs| > 1 {
      var rest := segs[1..];
      forall x | x in rest ensures x != "" && '/' !in x {
        assert x in segs;
      }
      JoinedSegmentsShape(rest);
      var j := Join(rest, Sep);
      var r := s0 + Sep + j;
      forall i | 0 <= i < |r| - 1 ensures !(r[i] == '/' && r[i + 1] == '/') {
        if i < |s0| {
          assert r[i] == s0[i] && s0[i] in s0;
        } else if i == |s0| {
          assert r[i + 1] == j[0];
        } else {
          assert r[i] == j[i - |s0| - 1] && r[i + 1] == j[i - |s0|];
        }
      }
      assert r[|r| - 1] == j[|j| - 1];
    } else {
      assert s0[|s0| - 1] in s0;
      forall i | 0 <= i < |s0| - 1 ensures s0[i] != '/' {
        assert s0[i] in s0;
      }
    }
  }

  /** Framing such text with a leading or a trailing `/` adds no `//`. */
  lemma FramedNoDoubleSeparator(r: string, lead: bool, trail: bool)
    requires r != "" && r[0] != '/' && r[|r| - 1] != '/' && NoDoubleSeparator(r)
    ensures NoDoubleSeparator((if lead then "/" else "") + r + (if trail then "/" else ""))
  {
    var pre := if lead then "/" else "";
    var t := pre + r + (if trail then "/" else "");
    forall i | 0 <= i < |t| - 1 ensures !(t[i] == '/' && t[i + 1] == '/') {
      if i + 1 < |pre| + |r| {
        if i < |pre| {
          assert t[i + 1] == r[0];
        } else {
          assert t[i] == r[i - |pre|] && t[i + 1] == r[i - |pre| + 1];
        }
      } else {
        assert t[i] == r[|r| - 1];
      }
    }
  }

  /** `path.normalize` never leaves two separators in a row. */
  lemma NormalizeNoDoubleSeparator(p: string)
    ensures NoDoubleSeparator(Normalize(p))
  {
    if p != "" {
      var allow := p[0] != '/';
      var segs := Resolve(Split(p, Sep), allow);
      ResolveKeeps(Split(p, Sep), allow);
      ResolvedHaveNoSeparator(p, allow);
      if segs != [] {
        JoinedSegmentsShape(segs);
        FramedNoDoubleSeparator(Join(segs, Sep), !allow, p[|p| - 1] == '/');
      }
    }
  }

  /** A text with no `//` cannot start with a prefix that ends in `//`. */
  lemma DoubleSeparatorNotPrefix(root: string, s: string)
    requires root != "" && root[|root| - 1] == '/'
    requires NoDoubleSeparator(s)
    ensures !(root + Sep <= s)
  {
    if |root| + 1 <= |s| {
      var i := |root| - 1;
      assert !(s[i] == '/' && s[i + 1] == '/');
      assert (root + Sep)[i] == '/' && (root + Sep)[i + 1] == '/';
    }
  }

  /** Resolution carries on from where the segments before it left the stack. */
  lemma {:induction false} ResolveSamePrefix(a1: seq<string>, a2: seq<string>, b: seq<string>, allowAboveRoot: bool)
    requires Resolve(a1, allowAboveRoot) == Resolve(a2, allowAboveRoot)
    ensures Resolve(a1 + b, allowAboveRoot) == Resolve(a2 + b, allowAboveRoot)
    decreases |b|
  {
    if b == [] {
      assert a1 + b == a1 && a2 + b == a2;
    } else {
      var init := b[..|b| - 1];
      ResolveSamePrefix(a1, a2, init, allowAboveRoot);
      assert (a1 + b)[..|a1 + b| - 1] == a1 + init;
      assert (a2 + b)[..|a2 + b| - 1] == a2 + init;
      assert (a1 + b)[|a1 + b| - 1] == b[|b| - 1] == (a2 + b)[|a2 + b| - 1];
    }
  }

  /** Splitting a separator-free segment, a `/`, then `x`: that segment, then the segments of `x`. */
  lemma SplitAfterSegment(seg: string, x: string)
    requires '/' !in seg
    ensures Split(seg + Sep + x, Sep) == [seg] + Split(x, Sep)
  {
    var s := seg + Sep + x;
    OccursAtChar(s, '/', |seg|);
    forall j | 0 <= j < |seg| ensures !OccursAt(s, Sep, j) {
      OccursAtChar(s, '/', j);
      assert s[j] == seg[j];
    }
    IndexOfIs(s, Sep, |seg|);
    assert s[..|seg|] == seg;
    assert s[|seg| + 1..] == x;
  }

  /** The segments of `/../x`: an empty one, `..`, then those of `x`; and of `/x`: an empty one, then those of `x`. */
  lemma SplitRootedDotDot(x: string)
    ensures Split("/../" + x, Sep) == ["", ".."] + Split(x, Sep)
    ensures Split("/" + x, Sep) == [""] + Split(x, Sep)
  {
    SplitAfterSegment("..", x);
    assert "/../" + x == "" + Sep + (".." + Sep + x);
    SplitAfterSegment("", ".." + Sep + x);
    assert "/" + x == "" + Sep + x;
    SplitAfterSegment("", x);
  }

  /** An absolute path cannot climb above the root: `/../x` normalizes as `/x` does. */
  lemma NormalizeRootedDotDot(x: string)
    ensures Normalize("/../" + x) == Normalize("/" + x)
  {
    SplitRootedDotDot(x);
    var parts := Split(x, Sep);
    assert Resolve(["", ".."], false) == [] == Resolve([""], false) by {
      assert ["", ".."][..1] == [""];
      assert [""][..0] == [];
    }
    ResolveSamePrefix(["", ".."], [""], parts, false);
    var p := "/../" + x;
    var q := "/" + x;
    assert p[0] == '/' && q[0] == '/';
    assert p[|p| - 1] == q[|q| - 1];
  }

  /** The index found holds `c`, and no `c` follows it. */
  lemma {:induction false} LastIndexOfCharIsLast(s: string, c: char)
    ensures var r := LastIndexOfChar(s, c);
      (r >= 0 ==> s[r] == c) && forall i :: r < i < |s| ==> s[i] != c
    decreases |s|
  {
    if s != [] && s[|s| - 1] != c {
      LastIndexOfCharIsLast(s[..|s| - 1], c);
    }
  }

  /** The last segment holds no separator. */
  lemma BasenameHasNoSeparator(p: string)
    ensures '/' !in Basename(p)
  {
    var t := TrimTrailingSeparators(p);
    var k := LastIndexOfChar(t, '/');
    LastIndexOfCharIsLast(t, '/');
    var base := t[k + 1..];
    forall i | 0 <= i < |base| ensures base[i] != '/' {
      assert base[i] == t[k + 1 + i];
    }
  }

  /**
   * The extension is empty, or a `.` and the rest of the last segment,
   * holding no further `.` or `/`; and it is empty exactly when the last
   * segment has no `.` after its first character, or is `..`.
   */
  lemma ExtnameShape(p: string)
    ensures var e := Extname(p);
      var base := Basename(p);
      && (e == "" || (e[0] == '.' && '.' !in e[1..] && '/' !in e && e == base[|base| - |e|..]))
      && (e == "" <==> IsDotDot(base) || forall i :: 0 < i < |base| ==> base[i] != '.')
  {
    var base := Basename(p);
    var dot := LastIndexOfChar(base, '.');
    LastIndexOfCharIsLast(base, '.');
    BasenameHasNoSeparator(p);
    var e := Extname(p);
    if e != "" {
      assert e == base[dot..];
      forall i | 0 <= i < |e[1..]| ensures e[1..][i] != '.' {
        assert e[1..][i] == base[dot + 1 + i];
      }
      forall i | 0 <= i < |e| ensures e[i] != '/' {
        assert e[i] == base[dot + i];
      }
    }
  }
}
