/**
 * The JavaScript string built-ins the diff viewer calls, over `seq<char>`: `startsWith`,
 * `split` and `join` with a literal separator, and `trim`; the leftmost search for a literal
 * that `split` and a regular-expression match perform; the text `.*` matches; and the
 * whitespace class shared by the regular-expression escape `\s` and `trim()`.
 */
module Strings {
  import opened Wrappers

  /**
   * ECMAScript WhiteSpace and LineTerminator code points: exactly the set matched by `\s`
   * and removed by `trim()`.
   */
  const Whitespace: set<char> := {
    '\t', '\n', '\U{000B}', '\U{000C}', '\r', ' ', '\U{00A0}', '\U{1680}',
    '\U{2000}', '\U{2001}', '\U{2002}', '\U{2003}', '\U{2004}', '\U{2005}',
    '\U{2006}', '\U{2007}', '\U{2008}', '\U{2009}', '\U{200A}',
    '\U{2028}', '\U{2029}', '\U{202F}', '\U{205F}', '\U{3000}', '\U{FEFF}'
  }

  predicate IsSpace(c: char) {
    c in Whitespace
  }

  /** The characters the regular-expression `.` does not match. */
  predicate IsLineTerminator(c: char) {
    c == '\n' || c == '\r' || c == '\U{2028}' || c == '\U{2029}'
  }

  predicate StartsWith(s: string, prefix: string) {
    |prefix| <= |s| && s[..|prefix|] == prefix
  }

  /** `pat` occurs in `s` starting at index `k`. */
  predicate OccursAt(s: string, pat: string, k: nat) {
    k + |pat| <= |s| && s[k..k + |pat|] == pat
  }

  /** `pat` occurs nowhere in `s`. */
  predicate Free(s: string, pat: string) {
    forall k: nat :: k <= |s| ==> !OccursAt(s, pat, k)
  }

  /** The first occurrence of `pat` in `s` at or after `from`. */
  function IndexFrom(s: string, pat: string, from: nat): (r: Option<nat>)
    ensures r.Some? ==> from <= r.value && OccursAt(s, pat, r.value)
    ensures forall k: nat :: from <= k && (r.None? || k < r.value) ==> !OccursAt(s, pat, k)
    decreases |s| - from
  {
    if from + |pat| > |s| then None
    else if OccursAt(s, pat, from) then Some(from)
    else IndexFrom(s, pat, from + 1)
  }

  /** `s.indexOf(pat)`, with `None` for -1. */
  function IndexOf(s: string, pat: string): (r: Option<nat>)
    ensures r.Some? ==> OccursAt(s, pat, r.value)
    ensures forall k: nat :: (r.None? || k < r.value) ==> !OccursAt(s, pat, k)
  {
    IndexFrom(s, pat, 0)
  }

  /** An occurrence with none before it is the one `IndexOf` finds. */
  lemma IndexOfAt(s: string, pat: string, i: nat)
    requires OccursAt(s, pat, i)
    requires forall k: nat :: k < i ==> !OccursAt(s, pat, k)
    ensures IndexOf(s, pat) == Some(i)
  {
  }

  lemma FreePrefix(s: string, pat: string, i: nat)
    requires pat != [] && i <= |s|
    requires forall k: nat :: k < i ==> !OccursAt(s, pat, k)
    ensures Free(s[..i], pat)
  {
    forall k: nat | OccursAt(s[..i], pat, k)
      ensures false
    {
      assert s[..i][k..k + |pat|] == s[k..k + |pat|];
      assert OccursAt(s, pat, k);
    }
  }

  /** `parts.join(sep)`. */
  function Join(parts: seq<string>, sep: string): string {
    if |parts| == 0 then []
    else if |parts| == 1 then parts[0]
    else parts[0] + sep + Join(parts[1..], sep)
  }

  /**
   * `s.split(sep)` for a non-empty literal separator: the pieces between the
   * non-overlapping occurrences of `sep`, scanned left to right; there is always at
   * least one piece.
   */
  function Split(s: string, sep: string): (parts: seq<string>)
    requires sep != []
    ensures |parts| >= 1
    decreases |s|
  {
    match IndexOf(s, sep)
    case None => [s]
    case Some(i) => [s[..i]] + Split(s[i + |sep|..], sep)
  }

  /** Joining the pieces of a split gives the string back. */
  lemma {:induction false} SplitJoin(s: string, sep: string)
    requires sep != []
    ensures Join(Split(s, sep), sep) == s
    decreases |s|
  {
    match IndexOf(s, sep)
    case None =>
    case Some(i) =>
      var rest := s[i + |sep|..];
      SplitJoin(rest, sep);
      assert s == s[..i] + sep + rest;
  }

  /** No piece of a split contains the separator. */
  lemma {:induction false} SplitFree(s: string, sep: string)
    requires sep != []
    ensures forall k :: 0 <= k < |Split(s, sep)| ==> Free(Split(s, sep)[k], sep)
    decreases |s|
  {
    match IndexOf(s, sep)
    case None =>
      assert s[..|s|] == s;
      FreePrefix(s, sep, |s|);
    case Some(i) =>
      FreePrefix(s, sep, i);
      var rest := s[i + |sep|..];
      SplitFree(rest, sep);
      var parts := Split(s, sep);
      assert parts == [s[..i]] + Split(rest, sep);
      forall k | 0 <= k < |parts|
        ensures Free(parts[k], sep)
      {
        if k > 0 {
          assert parts[k] == Split(rest, sep)[k - 1];
        }
      }
  }

  /**
   * Splitting on a one-character separator undoes joining with it, provided no
   * part contains the separator.
   */
  lemma {:induction false} SplitJoinChar(parts: seq<string>, c: char)
    requires |parts| >= 1
    requires forall k :: 0 <= k < |parts| ==> c !in parts[k]
    ensures Split(Join(parts, [c]), [c]) == parts
    decreases |parts|
  {
    var s := Join(parts, [c]);
    var p := parts[0];
    if |parts| == 1 {
      forall k: nat | k < |p|
        ensures !OccursAt(s, [c], k)
      {
        assert s[k..k + 1] == [p[k]];
      }
      assert IndexOf(s, [c]) == None;
    } else {
      var tail := Join(parts[1..], [c]);
      assert s == p + [c] + tail;
      forall k: nat | k < |p|
        ensures !OccursAt(s, [c], k)
      {
        assert s[k..k + 1] == [p[k]];
      }
      assert s[|p|..|p| + 1] == [c];
      IndexOfAt(s, [c], |p|);
      assert s[..|p|] == p;
      assert s[|p| + 1..] == tail;
      SplitJoinChar(parts[1..], c);
      assert Split(s, [c]) == [p] + Split(tail, [c]);
    }
  }

  /** The first index at or after `i` that does not hold whitespace (`|s|` if none). */
  function SkipSpaces(s: string, i: nat): (r: nat)
    requires i <= |s|
    ensures i <= r <= |s|
    ensures forall k :: i <= k < r ==> IsSpace(s[k])
    ensures r < |s| ==> !IsSpace(s[r])
    decreases |s| - i
  {
    if i < |s| && IsSpace(s[i]) then SkipSpaces(s, i + 1) else i
  }

  /** The end of `s[lo..j]` once its trailing whitespace is dropped. */
  function SkipSpacesBack(s: string, lo: nat, j: nat): (r: nat)
    requires lo <= j <= |s|
    ensures lo <= r <= j
    ensures forall k :: r <= k < j ==> IsSpace(s[k])
    ensures r > lo ==> !IsSpace(s[r - 1])
    decreases j
  {
    if j > lo && IsSpace(s[j - 1]) then SkipSpacesBack(s, lo, j - 1) else j
  }

  /**
   * `s.trim()`: the part of `s` between its leading and trailing whitespace. It is
   * empty exactly when `s` is all whitespace, and otherwise starts and ends with a
   * non-whitespace character.
   */
  function Trim(s: string): (r: string)
    ensures var i := SkipSpaces(s, 0);
      i + |r| <= |s| && s[i..i + |r|] == r
      && (forall k :: 0 <= k < i ==> IsSpace(s[k]))
      && (forall k :: i + |r| <= k < |s| ==> IsSpace(s[k]))
    ensures r == [] <==> forall k :: 0 <= k < |s| ==> IsSpace(s[k])
    ensures r != [] ==> !IsSpace(r[0]) && !IsSpace(r[|r| - 1])
  {
    var i := SkipSpaces(s, 0);
    var j := SkipSpacesBack(s, i, |s|);
    s[i..j]
  }

  /** A string without whitespace at either end is its own trim. */
  lemma TrimUnpadded(s: string)
    requires s != [] ==> !IsSpace(s[0]) && !IsSpace(s[|s| - 1])
    ensures Trim(s) == s
  {
    assert s[0..|s|] == s;
  }

  /** The longest prefix of `s` the regular-expression `.*` matches. */
  function UntilLineEnd(s: string): (r: string)
    ensures |r| <= |s| && r == s[..|r|]
    ensures forall k :: 0 <= k < |r| ==> !IsLineTerminator(r[k])
    ensures |r| < |s| ==> IsLineTerminator(s[|r|])
  {
    if s == [] || IsLineTerminator(s[0]) then [] else [s[0]] + UntilLineEnd(s[1..])
  }

  /** `parts.join("")`. */
  function Concat(parts: seq<string>): string {
    if parts == [] then [] else parts[0] + Concat(parts[1..])
  }

  lemma {:induction false} ConcatAppend(a: seq<string>, b: seq<string>)
    ensures Concat(a + b) == Concat(a) + Concat(b)
    decreases |a|
  {
    if a == [] {
      assert a + b == b;
    } else {
      assert (a + b)[1..] == a[1..] + b;
      ConcatAppend(a[1..], b);
    }
  }

  /** A line without terminators is matched whole by `.*`. */
  lemma {:induction false} UntilLineEndWhole(s: string)
    requires forall k :: 0 <= k < |s| ==> !IsLineTerminator(s[k])
    ensures UntilLineEnd(s) == s
  {
    if s != [] {
      UntilLineEndWhole(s[1..]);
      assert s == [s[0]] + s[1..];
    }
  }

  /** An occurrence of a one-character pattern in `s` is one in any extension of `s`. */
  lemma OccursExtended(s: string, t: string, c: char, k: nat)
    requires k < |s| && |s| <= |t| && t[..|s|] == s
    ensures OccursAt(t, [c], k) <==> OccursAt(s, [c], k)
  {
    assert t[k] == s[k];
    assert t[k..k + 1] == [t[k]];
    assert s[k..k + 1] == [s[k]];
  }

  /**
   * In `s` followed by `c`, the first `c` is the first one of `s`, or the appended one when
   * `s` has none.
   */
  lemma IndexOfSnoc(s: string, c: char)
    ensures IndexOf(s + [c], [c]) == Some(if IndexOf(s, [c]).Some? then IndexOf(s, [c]).value else |s|)
  {
    var t := s + [c];
    assert t[..|s|] == s;
    var r := IndexOf(s, [c]);
    var i := if r.Some? then r.value else |s|;
    forall k: nat | k < i
      ensures !OccursAt(t, [c], k)
    {
      OccursExtended(s, t, c, k);
    }
    assert t[i..i + 1] == [c] by {
      if r.Some? {
        OccursExtended(s, t, c, i);
      }
    }
    IndexOfAt(t, [c], i);
  }

  /** Appending the separator to a string splits off one more, empty, piece. */
  lemma {:induction false} SplitSnocSeparator(s: string, c: char)
    ensures Split(s + [c], [c]) == Split(s, [c]) + [[]]
    decreases |s|
  {
    var t := s + [c];
    var r := IndexOf(s, [c]);
    IndexOfSnoc(s, c);
    if r.None? {
      assert t[..|s|] == s && t[|s| + 1..] == [];
      assert IndexOf([], [c]) == None;
      assert Split(t, [c]) == [s] + Split([], [c]);
    } else {
      var i := r.value;
      assert t[..i] == s[..i];
      assert t[i + 1..] == s[i + 1..] + [c];
      SplitSnocSeparator(s[i + 1..], c);
      assert Split(t, [c]) == [s[..i]] + Split(s[i + 1..] + [c], [c]);
    }
  }
}
