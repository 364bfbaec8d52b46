/**
  The two Python string methods the message generator relies on, written as
  Dafny functions over `string`:
  - `str.strip()` with no argument (drop leading and trailing whitespace);
  - `str.replace(target, replacement)` with a non-empty target: a left-to-right
    scan that replaces every non-overlapping occurrence.
  `Split` and `Join` (Python's `str.split(sep)` and `sep.join(parts)`) serve as
  an independent description of `Replace`: replacing is splitting at every
  occurrence and joining the pieces with the replacement.
 */
module Text {

  /** The characters for which Python's `str.isspace()` holds: the 29 code
      points U+0009-U+000D, U+001C-U+0020, U+0085, U+00A0, U+1680,
      U+2000-U+200A, U+2028, U+2029, U+202F, U+205F and U+3000. */
  predicate IsWhitespace(c: char) {
    || '\t' <= c <= '\r'
    || '\U{1c}' <= c <= ' '
    || c == '\U{85}' || c == '\U{a0}' || c == '\U{1680}'
    || '\U{2000}' <= c <= '\U{200a}'
    || c == '\U{2028}' || c == '\U{2029}' || c == '\U{202f}' || c == '\U{205f}' || c == '\U{3000}'
  }

  ghost predicate AllWhitespace(s: string) {
    forall k :: 0 <= k < |s| ==> IsWhitespace(s[k])
  }

  /** `s` with its leading whitespace removed: the longest suffix of `s` that
      does not start with whitespace. */
  function TrimStart(s: string): (r: string)
    ensures |r| <= |s| && r == s[|s| - |r|..]
    ensures forall k :: 0 <= k < |s| - |r| ==> IsWhitespace(s[k])
    ensures r != [] ==> !IsWhitespace(r[0])
  {
    if s != [] && IsWhitespace(s[0]) then
      var r := TrimStart(s[1..]);
      assert s[1..][|s| - 1 - |r|..] == s[|s| - |r|..];
      assert forall k :: 1 <= k < |s| - |r| ==> s[k] == s[1..][k - 1];
      r
    else
      s
  }

  /** `s` with its trailing whitespace removed: the longest prefix of `s` that
      does not end with whitespace. */
  function TrimEnd(s: string): (r: string)
    ensures |r| <= |s| && r == s[..|r|]
    ensures forall k :: |r| <= k < |s| ==> IsWhitespace(s[k])
    ensures r != [] ==> !IsWhitespace(r[|r| - 1])
  {
    if s != [] && IsWhitespace(s[|s| - 1]) then
      var r := TrimEnd(s[..|s| - 1]);
      assert s[..|s| - 1][..|r|] == s[..|r|];
      assert forall k :: |r| <= k < |s| - 1 ==> s[k] == s[..|s| - 1][k];
      r
    else
      s
  }

  /** `s[start..start + |r|] == r`, and everything of `s` around that slice is
      whitespace. */
  ghost predicate IsTrimmedSlice(s: string, start: int, r: string) {
    && 0 <= start <= start + |r| <= |s|
    && s[start..start + |r|] == r
    && (forall k :: 0 <= k < start ==> IsWhitespace(s[k]))
    && (forall k :: start + |r| <= k < |s| ==> IsWhitespace(s[k]))
  }

  /** Python's `s.strip()`. */
  function Strip(s: string): (r: string)
    ensures IsTrimmedSlice(s, |s| - |TrimStart(s)|, r)
    ensures r != [] ==> !IsWhitespace(r[0]) && !IsWhitespace(r[|r| - 1])
    ensures r == [] <==> AllWhitespace(s)
  {
    var t := TrimStart(s);
    var r := TrimEnd(t);
    StripFacts(s, t, r);
    r
  }

  /** What `Strip` promises, from what `TrimStart` and `TrimEnd` promise. */
  lemma StripFacts(s: string, t: string, r: string)
    requires |t| <= |s| && t == s[|s| - |t|..]
    requires forall k :: 0 <= k < |s| - |t| ==> IsWhitespace(s[k])
    requires t != [] ==> !IsWhitespace(t[0])
    requires |r| <= |t| && r == t[..|r|]
    requires forall k :: |r| <= k < |t| ==> IsWhitespace(t[k])
    requires r != [] ==> !IsWhitespace(r[|r| - 1])
    ensures IsTrimmedSlice(s, |s| - |t|, r)
    ensures r != [] ==> !IsWhitespace(r[0])
    ensures r == [] <==> AllWhitespace(s)
  {
    if r != [] {
      assert r[0] == t[0];
    }
    TrimmedSuffix(s, |s| - |t|, t, r);
    if r == [] {
      TrimmedAll(s, |s| - |t|, t);
    } else {
      NotAllWhitespace(s, |s| - |t|, t);
    }
  }

  lemma NotAllWhitespace(s: string, start: int, t: string)
    requires 0 <= start <= |s| && t == s[start..]
    requires t != [] && !IsWhitespace(t[0])
    ensures !AllWhitespace(s)
  {
    assert s[start] == t[0];
  }

  lemma TrimmedSuffix(s: string, start: int, t: string, r: string)
    requires 0 <= start <= |s| && t == s[start..]
    requires forall k :: 0 <= k < start ==> IsWhitespace(s[k])
    requires |r| <= |t| && r == t[..|r|]
    requires forall k :: |r| <= k < |t| ==> IsWhitespace(t[k])
    ensures IsTrimmedSlice(s, start, r)
  {
    assert s[start..start + |r|] == r;
    forall k | start + |r| <= k < |s|
      ensures IsWhitespace(s[k])
    {
      assert s[k] == t[k - start];
    }
  }

  lemma TrimmedAll(s: string, start: int, t: string)
    requires 0 <= start <= |s| && t == s[start..]
    requires forall k :: 0 <= k < start ==> IsWhitespace(s[k])
    requires forall k :: 0 <= k < |t| ==> IsWhitespace(t[k])
    ensures AllWhitespace(s)
  {
    forall k | start <= k < |s|
      ensures IsWhitespace(s[k])
    {
      assert s[k] == t[k - start];
    }
  }

  /** A string that neither starts nor ends with whitespace is its own strip. */
  lemma StripKeeps(s: string)
    requires s != [] && !IsWhitespace(s[0]) && !IsWhitespace(s[|s| - 1])
    ensures Strip(s) == s && !AllWhitespace(s)
  {
  }

  /** Stripping twice is stripping once. */
  lemma StripIdempotent(s: string)
    ensures Strip(Strip(s)) == Strip(s)
  {
  }

  /** `pat` occurs in `s` at index `i`. */
  ghost predicate OccursAt(s: string, pat: string, i: int) {
    0 <= i && i + |pat| <= |s| && s[i..i + |pat|] == pat
  }

  ghost predicate Occurs(s: string, pat: string) {
    exists i :: OccursAt(s, pat, i)
  }

  /** Python's `s.replace(target, replacement)`: scanning from the left, each
      occurrence of `target` is replaced and scanning resumes after it. */
  function Replace(s: string, target: string, replacement: string): (r: string)
    requires target != []
    decreases |s|
  {
    if s == [] then []
    else if target <= s then replacement + Replace(s[|target|..], target, replacement)
    else [s[0]] + Replace(s[1..], target, replacement)
  }

  /** Python's `s.split(sep)` for a non-empty separator. */
  function Split(s: string, sep: string): (parts: seq<string>)
    requires sep != []
    ensures |parts| >= 1
    decreases |s|
  {
    if s == [] then [[]]
    else if sep <= s then [[]] + Split(s[|sep|..], sep)
    else
      var rest := Split(s[1..], sep);
      [[s[0]] + rest[0]] + rest[1..]
  }

  /** Python's `sep.join(parts)`. */
  function Join(parts: seq<string>, sep: string): (r: string)
    ensures |parts| >= 1 ==> parts[0] <= r
  {
    if parts == [] then []
    else if |parts| == 1 then parts[0]
    else parts[0] + sep + Join(parts[1..], sep)
  }

  lemma JoinPrepend(x: string, parts: seq<string>, sep: string)
    requires |parts| >= 1
    ensures Join([x + parts[0]] + parts[1..], sep) == x + Join(parts, sep)
  {
    var ps := [x + parts[0]] + parts[1..];
    assert ps[1..] == parts[1..];
  }

  /** Joining the pieces of a split with the separator gives back the string. */
  lemma {:induction false} SplitJoin(s: string, sep: string)
    requires sep != []
    ensures Join(Split(s, sep), sep) == s
    decreases |s|
  {
    if s == [] {
    } else if sep <= s {
      var rest := Split(s[|sep|..], sep);
      SplitJoin(s[|sep|..], sep);
      JoinEmptyFirst(rest, sep);
      assert s == sep + s[|sep|..];
    } else {
      var rest := Split(s[1..], sep);
      SplitJoin(s[1..], sep);
      JoinPrepend([s[0]], rest, sep);
      assert s == [s[0]] + s[1..];
    }
  }

  lemma JoinEmptyFirst(rest: seq<string>, sep: string)
    requires |rest| >= 1
    ensures Join([[]] + rest, sep) == sep + Join(rest, sep)
  {
    var ps := [[]] + rest;
    assert ps[1..] == rest;
    assert ps[0] == [];
  }

  /** `Replace` is split-then-join: the string is cut at every occurrence the
      scan finds, and the pieces are glued together with the replacement. */
  lemma {:induction false} ReplaceIsSplitJoin(s: string, target: string, replacement: string)
    requires target != []
    ensures Replace(s, target, replacement) == Join(Split(s, target), replacement)
    decreases |s|
  {
    if s == [] {
    } else if target <= s {
      var rest := Split(s[|target|..], target);
      ReplaceIsSplitJoin(s[|target|..], target, replacement);
      JoinEmptyFirst(rest, replacement);
    } else {
      var rest := Split(s[1..], target);
      ReplaceIsSplitJoin(s[1..], target, replacement);
      JoinPrepend([s[0]], rest, replacement);
    }
  }

  /** The first piece of a split is a prefix of the string. */
  lemma {:induction false} SplitFirstIsPrefix(s: string, sep: string)
    requires sep != []
    ensures Split(s, sep)[0] <= s
    decreases |s|
  {
    if s != [] && !(sep <= s) {
      SplitFirstIsPrefix(s[1..], sep);
    }
  }

  /** No piece of a split contains the separator: the scan cuts at every
      occurrence it meets. */
  lemma {:induction false} SplitPiecesAreFree(s: string, sep: string)
    requires sep != []
    ensures forall j :: 0 <= j < |Split(s, sep)| ==> !Occurs(Split(s, sep)[j], sep)
    decreases |s|
  {
    if s == [] {
    } else if sep <= s {
      SplitPiecesAreFree(s[|sep|..], sep);
    } else {
      var rest := Split(s[1..], sep);
      SplitPiecesAreFree(s[1..], sep);
      SplitFirstIsPrefix(s[1..], sep);
      ConsFree(s, rest[0], sep);
      var parts := Split(s, sep);
      assert parts == [[s[0]] + rest[0]] + rest[1..];
      forall j | 1 <= j < |parts|
        ensures !Occurs(parts[j], sep)
      {
        assert parts[j] == rest[j];
      }
    }
  }

  /** A separator-free piece stays free when the string's first character is
      put in front of it, as long as the string does not start with the
      separator. */
  lemma ConsFree(s: string, p: string, sep: string)
    requires sep != [] && s != [] && !(sep <= s)
    requires p <= s[1..] && !Occurs(p, sep)
    ensures !Occurs([s[0]] + p, sep)
  {
    var first := [s[0]] + p;
    assert first <= s;
    forall i ensures !OccursAt(first, sep, i) {
      if i == 0 && |sep| <= |first| {
        assert first[..|sep|] == s[..|sep|];
      } else if i > 0 && i + |sep| <= |first| {
        assert first[i..i + |sep|] == p[i - 1..i - 1 + |sep|];
        assert !OccursAt(p, sep, i - 1);
      }
    }
  }

  /** The split cuts at the leftmost occurrence of the separator and goes on
      splitting after it. Together with `OccursIffSplits` (no occurrence, one
      piece) this determines `Split`, and so `Replace`, by leftmost cuts for
      every separator, including one that can overlap itself such as `"aa"`. */
  lemma {:induction false} SplitAtLeftmost(s: string, sep: string, i: int)
    requires sep != [] && OccursAt(s, sep, i)
    requires forall j :: OccursAt(s, sep, j) ==> i <= j
    ensures Split(s, sep) == [s[..i]] + Split(s[i + |sep|..], sep)
    decreases |s|
  {
    if i == 0 {
      assert sep <= s;
      assert s[..0] == [];
    } else {
      assert !OccursAt(s, sep, 0);
      assert !(sep <= s);
      var t := s[1..];
      LeftmostInTail(s, sep, i);
      SplitAtLeftmost(t, sep, i - 1);
      assert t[i - 1 + |sep|..] == s[i + |sep|..];
      assert [s[0]] + t[..i - 1] == s[..i];
    }
  }

  /** A leftmost occurrence past the front is, one character on, the leftmost
      occurrence in the tail. */
  lemma LeftmostInTail(s: string, sep: string, i: int)
    requires sep != [] && i > 0 && OccursAt(s, sep, i)
    requires forall j :: OccursAt(s, sep, j) ==> i <= j
    ensures OccursAt(s[1..], sep, i - 1)
    ensures forall j :: OccursAt(s[1..], sep, j) ==> i - 1 <= j
  {
    var t := s[1..];
    assert t[i - 1..i - 1 + |sep|] == s[i..i + |sep|];
    forall j | OccursAt(t, sep, j)
      ensures i - 1 <= j
    {
      assert t[j..j + |sep|] == s[j + 1..j + 1 + |sep|];
      assert OccursAt(s, sep, j + 1);
    }
  }

  /** The separator occurs in `s` exactly when the split has more than one
      piece. */
  lemma OccursIffSplits(s: string, sep: string)
    requires sep != []
    ensures Occurs(s, sep) <==> |Split(s, sep)| > 1
  {
    var parts := Split(s, sep);
    SplitJoin(s, sep);
    if |parts| == 1 {
      SplitPiecesAreFree(s, sep);
      assert parts[0] == s;
    } else {
      var i := |parts[0]|;
      assert s == parts[0] + sep + Join(parts[1..], sep);
      assert s[i..i + |sep|] == sep;
      assert OccursAt(s, sep, i);
    }
  }

  /** A string without the target is left unchanged by `Replace`. */
  lemma ReplaceAbsent(s: string, target: string, replacement: string)
    requires target != []
    requires !Occurs(s, target)
    ensures Replace(s, target, replacement) == s
  {
    OccursIffSplits(s, target);
    ReplaceIsSplitJoin(s, target, replacement);
    SplitJoin(s, target);
  }

  /** A string that contains the target is changed by `Replace` whenever the
      replacement differs from the target. */
  lemma ReplacePresent(s: string, target: string, replacement: string)
    requires target != [] && replacement != target
    requires Occurs(s, target)
    ensures Replace(s, target, replacement) != s
  {
    if |replacement| != |target| {
      ReplaceResized(s, target, replacement);
    } else {
      // The first replaced occurrence shows the difference.
      var parts := Split(s, target);
      var r := Replace(s, target, replacement);
      OccursIffSplits(s, target);
      ReplaceIsSplitJoin(s, target, replacement);
      SplitJoin(s, target);
      var i := |parts[0]|;
      assert s == parts[0] + target + Join(parts[1..], target);
      assert r == parts[0] + replacement + Join(parts[1..], replacement);
      assert s[i..i + |target|] == target;
      assert r[i..i + |target|] == replacement;
    }
  }

  /** The case of `ReplacePresent` where the lengths differ: the result's
      length gives it away. */
  lemma ReplaceResized(s: string, target: string, replacement: string)
    requires target != [] && |replacement| != |target|
    requires Occurs(s, target)
    ensures Replace(s, target, replacement) != s
  {
    var parts := Split(s, target);
    OccursIffSplits(s, target);
    ReplaceIsSplitJoin(s, target, replacement);
    SplitJoin(s, target);
    JoinLength(parts, target);
    JoinLength(parts, replacement);
    ScaledDiffer(|parts| - 1, |target|, |replacement|);
  }

  lemma ScaledDiffer(m: nat, a: nat, b: nat)
    requires m > 0 && a != b
    ensures m * a != m * b
  {
    if a < b {
      assert m * b == m * a + m * (b - a);
    } else {
      assert m * a == m * b + m * (a - b);
    }
  }

  /** Each of the `|Split(s, target)| - 1` occurrences the scan finds is
      swapped for the replacement; the rest of `s` is kept. */
  lemma ReplaceLength(s: string, target: string, replacement: string)
    requires target != []
    ensures |Replace(s, target, replacement)|
         == |s| + (|Split(s, target)| - 1) * (|replacement| - |target|)
  {
    var parts := Split(s, target);
    ReplaceIsSplitJoin(s, target, replacement);
    SplitJoin(s, target);
    JoinLength(parts, target);
    JoinLength(parts, replacement);
    var m := |parts| - 1;
    assert m * |replacement| - m * |target| == m * (|replacement| - |target|);
  }

  function PiecesLength(parts: seq<string>): (n: nat) {
    if parts == [] then 0 else |parts[0]| + PiecesLength(parts[1..])
  }

  /** The length of a join: the pieces plus one separator between each two. */
  lemma {:induction false} JoinLength(parts: seq<string>, sep: string)
    requires |parts| >= 1
    ensures |Join(parts, sep)| == PiecesLength(parts) + (|parts| - 1) * |sep|
  {
    if |parts| > 1 {
      JoinLength(parts[1..], sep);
    }
  }

  /** With `target` starting on a character that `p` lacks, no occurrence can
      begin inside `p`, so `p` passes through `Replace` untouched. */
  lemma {:induction false} ReplaceFreePrefix(p: string, s: string, target: string, replacement: string)
    requires target != [] && target[0] !in p
    ensures Replace(p + s, target, replacement) == p + Replace(s, target, replacement)
  {
    if p == [] {
      assert p + s == s;
    } else {
      assert (p + s)[0] == p[0];
      assert (p + s)[1..] == p[1..] + s;
      ReplaceFreePrefix(p[1..], s, target, replacement);
    }
  }

  /** When `b` cannot continue an occurrence that started in `a` (its first
      character appears nowhere after the first in `target`), both halves are
      replaced independently. */
  lemma {:induction false} ReplaceConcat(a: string, b: string, target: string, replacement: string)
    requires target != []
    requires b == [] || b[0] !in target[1..]
    ensures Replace(a + b, target, replacement)
         == Replace(a, target, replacement) + Replace(b, target, replacement)
    decreases |a|
  {
    if a == [] {
      assert a + b == b;
    } else if target <= a {
      assert target <= a + b;
      assert (a + b)[|target|..] == a[|target|..] + b;
      ReplaceConcat(a[|target|..], b, target, replacement);
    } else {
      NoStraddle(a, b, target);
      assert (a + b)[1..] == a[1..] + b;
      ReplaceConcat(a[1..], b, target, replacement);
    }
  }

  /** An occurrence at the front of `a + b` that is not at the front of `a`
      would have to straddle the boundary, which the requirement on `b[0]`
      rules out. */
  lemma NoStraddle(a: string, b: string, target: string)
    requires target != [] && a != [] && !(target <= a)
    requires b == [] || b[0] !in target[1..]
    ensures !(target <= a + b)
  {
    if |target| <= |a| {
      assert (a + b)[..|target|] == a[..|target|];
    } else if b != [] && |target| <= |a + b| {
      assert (a + b)[|a|] == b[0];
      assert target[1..][|a| - 1] == target[|a|];
    }
  }

  /** The target itself is replaced as a whole. */
  lemma ReplaceTarget(target: string, replacement: string)
    requires target != []
    ensures Replace(target, target, replacement) == replacement
  {
    assert target[|target|..] == [];
  }

  /** Replacing a target by itself changes nothing. */
  lemma ReplaceBySelf(s: string, target: string)
    requires target != []
    ensures Replace(s, target, target) == s
  {
    ReplaceIsSplitJoin(s, target, target);
    SplitJoin(s, target);
  }
}
