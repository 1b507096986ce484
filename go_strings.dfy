/**
 * The few functions of Go's `strings` package that the migration engine and
 * the HTTP layer rely on, stated over `string` (a sequence of characters).
 * Indices are character positions, not Go's byte positions. The results the
 * callers compute (the pieces of a split, a stripped key, a trimmed key)
 * still agree with Go's, because every separator they use is a one-byte
 * ASCII character that never occurs inside a multi-byte UTF-8 sequence.
 */
module GoStrings {

  /** `s` ends with `suffix` (strings.HasSuffix). */
  predicate HasSuffix(s: string, suffix: string)
  {
    |suffix| <= |s| && s[|s| - |suffix|..] == suffix
  }

  /** `sub` occurs in `s` starting at position `i`. */
  predicate OccursAt(s: string, sub: string, i: int)
  {
    0 <= i && i + |sub| <= |s| && s[i..i + |sub|] == sub
  }

  /** Joins non-empty `parts` with `sep` between each two (strings.Join). */
  function Join(parts: seq<string>, sep: char): string
  {
    if |parts| == 0 then ""
    else if |parts| == 1 then parts[0]
    else parts[0] + [sep] + Join(parts[1..], sep)
  }

  /**
   * strings.Split(s, string(sep)): the pieces of `s` between the separators.
   * There is always at least one piece (the empty string splits into [""]),
   * no piece holds a separator, and joining the pieces gives `s` back.
   */
  function Split(s: string, sep: char): (parts: seq<string>)
    ensures |parts| >= 1
    ensures forall i :: 0 <= i < |parts| ==> sep !in parts[i]
    ensures Join(parts, sep) == s
  {
    if s == [] then [""]
    else
      var rest := Split(s[1..], sep);
      if s[0] == sep then
        assert ([""] + rest)[1..] == rest;
        [""] + rest
      else
        var parts := [[s[0]] + rest[0]] + rest[1..];
        assert parts[1..] == rest[1..];
        assert s == [s[0]] + s[1..];
        parts
  }

  /** A string without the separator is a single piece. */
  lemma {:induction false} SplitNoSeparator(s: string, sep: char)
    requires sep !in s
    ensures Split(s, sep) == [s]
  {
    if s != [] {
      SplitNoSeparator(s[1..], sep);
      assert [s[0]] + s[1..] == s;
    }
  }

  /** Splitting at the first separator: the piece before it comes first. */
  lemma {:induction false} SplitAtFirst(a: string, sep: char, rest: string)
    requires sep !in a
    ensures Split(a + [sep] + rest, sep) == [a] + Split(rest, sep)
  {
    var s := a + [sep] + rest;
    if a == [] {
      assert s[1..] == rest;
    } else {
      assert s[1..] == a[1..] + [sep] + rest;
      SplitAtFirst(a[1..], sep, rest);
      assert [a[0]] + a[1..] == a;
    }
  }

  /** Split inverts Join on separator-free pieces. */
  lemma {:induction false} SplitJoin(parts: seq<string>, sep: char)
    requires |parts| >= 1
    requires forall i :: 0 <= i < |parts| ==> sep !in parts[i]
    ensures Split(Join(parts, sep), sep) == parts
  {
    if |parts| == 1 {
      SplitNoSeparator(parts[0], sep);
    } else {
      SplitJoin(parts[1..], sep);
      SplitAtFirst(parts[0], sep, Join(parts[1..], sep));
      assert [parts[0]] + parts[1..] == parts;
    }
  }

  /** First occurrence of `sub` in `s` at or after `from`, or -1. */
  function IndexFrom(s: string, sub: string, from: nat): (i: int)
    decreases |s| - from
    ensures i == -1 || (from <= i && OccursAt(s, sub, i))
    ensures i == -1 ==> forall j :: from <= j ==> !OccursAt(s, sub, j)
    ensures i != -1 ==> forall j :: from <= j < i ==> !OccursAt(s, sub, j)
  {
    if from + |sub| > |s| then -1
    else if s[from..from + |sub|] == sub then from
    else IndexFrom(s, sub, from + 1)
  }

  /**
   * strings.Index(s, sub): the position of the first occurrence of `sub`
   * in `s`, or -1 when there is none.
   */
  function Index(s: string, sub: string): (i: int)
    ensures i == -1 || 0 <= i <= |s| - |sub|
    ensures i == -1 <==> forall j :: !OccursAt(s, sub, j)
    ensures i != -1 ==> OccursAt(s, sub, i) && forall j :: 0 <= j < i ==> !OccursAt(s, sub, j)
  {
    IndexFrom(s, sub, 0)
  }

  /** The position of a first occurrence is determined by its defining facts. */
  lemma IndexIs(s: string, sub: string, i: nat)
    requires OccursAt(s, sub, i)
    requires forall j :: 0 <= j < i ==> !OccursAt(s, sub, j)
    ensures Index(s, sub) == i
  {
  }

  /**
   * strings.Replace(s, pattern, replacement, 1): the first occurrence of `pattern` replaced
   * by `replacement`; `s` itself when `pattern` does not occur.
   */
  function ReplaceFirst(s: string, pattern: string, replacement: string): (r: string)
    ensures (forall j :: !OccursAt(s, pattern, j)) ==> r == s
  {
    var i := Index(s, pattern);
    if i < 0 then s else s[..i] + replacement + s[i + |pattern|..]
  }

  /** At the first occurrence `i` of `pattern`, exactly that occurrence is replaced. */
  lemma ReplaceFirstAt(s: string, pattern: string, replacement: string, i: nat)
    requires OccursAt(s, pattern, i)
    requires forall j :: 0 <= j < i ==> !OccursAt(s, pattern, j)
    ensures ReplaceFirst(s, pattern, replacement) == s[..i] + replacement + s[i + |pattern|..]
  {
    IndexIs(s, pattern, i);
  }

  /**
   * When `pattern` is first found right after `p`, the replacement keeps `p`
   * and the text after that occurrence.
   */
  lemma ReplaceFirstAfter(p: string, pattern: string, replacement: string, q: string)
    requires |pattern| > 0 && pattern[0] !in p
    ensures ReplaceFirst(p + pattern + q, pattern, replacement) == p + replacement + q
  {
    var s := p + pattern + q;
    assert s[|p|..|p| + |pattern|] == pattern;
    forall j | 0 <= j < |p|
      ensures !OccursAt(s, pattern, j)
    {
      assert s[j] == p[j];
      if j + |pattern| <= |s| {
        assert s[j..j + |pattern|][0] == s[j];
      }
    }
    IndexIs(s, pattern, |p|);
    assert s[..|p|] == p;
    assert s[|p| + |pattern|..] == q;
  }

  /**
   * strings.TrimRight(s, cutset): `s` without its longest trailing run of
   * characters that belong to `cutset`. The result is a prefix of `s`, its
   * last character (if any) is not in `cutset`, and everything removed is.
   */
  function TrimRight(s: string, cutset: string): (r: string)
    ensures |r| <= |s| && r == s[..|r|]
    ensures r == [] || r[|r| - 1] !in cutset
    ensures forall i :: |r| <= i < |s| ==> s[i] in cutset
  {
    if s != [] && s[|s| - 1] in cutset then TrimRight(s[..|s| - 1], cutset) else s
  }

  /** The three facts of TrimRight's contract determine its result. */
  lemma TrimRightIs(s: string, cutset: string, r: string)
    requires |r| <= |s| && r == s[..|r|]
    requires r == [] || r[|r| - 1] !in cutset
    requires forall i :: |r| <= i < |s| ==> s[i] in cutset
    ensures TrimRight(s, cutset) == r
  {
    var t := TrimRight(s, cutset);
    if |r| > 0 {
      assert r[|r| - 1] == s[|r| - 1];
    }
    if |t| > 0 {
      assert t[|t| - 1] == s[|t| - 1];
    }
  }

  /** strings.TrimSuffix(s, suffix): `s` without `suffix` when it ends with it. */
  function TrimSuffix(s: string, suffix: string): (r: string)
    ensures HasSuffix(s, suffix) ==> r + suffix == s
    ensures !HasSuffix(s, suffix) ==> r == s
  {
    if HasSuffix(s, suffix) then s[..|s| - |suffix|] else s
  }

  /** Removing a suffix that was just appended gives the original text back. */
  lemma TrimSuffixAppended(k: string, suffix: string)
    ensures HasSuffix(k + suffix, suffix)
    ensures TrimSuffix(k + suffix, suffix) == k
  {
    assert (k + suffix)[|k|..] == suffix;
    assert (k + suffix)[..|k|] == k;
  }
}
