/**
 * The helpers of src/utils.ts: the class-name joiner `cn` and the inline differ that
 * compares a deleted line with the added line it is paired with.
 *
 * The inline differ splits both lines into alternating word and whitespace tokens,
 * walks the two token lists in lockstep, keeps equal tokens whole and compares unequal
 * tokens character by character at equal positions.
 */
module Utils {
  import opened Wrappers
  import opened Strings
  import opened Types

  // ---------------------------------------------------------------------------
  // cn
  // ---------------------------------------------------------------------------

  /** What `cn` accepts: a string, `undefined`, `null` or `false`. */
  datatype ClassValue = Str(s: string) | Undefined | Null | False

  /** `Boolean(v)`: only a non-empty string is truthy. */
  predicate Truthy(v: ClassValue) {
    v.Str? && v.s != []
  }

  /** The truthy arguments, in order, as strings. */
  function Kept(args: seq<ClassValue>): (r: seq<string>)
    ensures forall k :: 0 <= k < |r| ==> r[k] != []
    ensures r == [] <==> forall k :: 0 <= k < |args| ==> !Truthy(args[k])
  {
    if args == [] then []
    else
      var rest := Kept(args[1..]);
      assert forall k :: 1 <= k < |args| ==> args[k] == args[1..][k - 1];
      (if Truthy(args[0]) then [args[0].s] else []) + rest
  }

  lemma JoinNonEmpty(parts: seq<string>, sep: string)
    requires forall k :: 0 <= k < |parts| ==> parts[k] != []
    ensures Join(parts, sep) == [] <==> parts == []
  {
  }

  /**
   * `cn(...classes)`: the truthy arguments joined by single spaces. The result is empty
   * exactly when no argument is truthy.
   */
  function Cn(args: seq<ClassValue>): (r: string)
    ensures r == [] <==> forall k :: 0 <= k < |args| ==> !Truthy(args[k])
  {
    JoinNonEmpty(Kept(args), " ");
    Join(Kept(args), " ")
  }

  /**
   * When no class name contains a space, splitting the result of `cn` on spaces gives
   * back exactly the truthy arguments, in order.
   */
  lemma CnSplit(args: seq<ClassValue>)
    requires exists k :: 0 <= k < |args| && Truthy(args[k])
    requires forall k :: 0 <= k < |args| && args[k].Str? ==> ' ' !in args[k].s
    ensures Split(Cn(args), " ") == Kept(args)
  {
    KeptNoSpace(args);
    SplitJoinChar(Kept(args), ' ');
  }

  lemma {:induction false} KeptNoSpace(args: seq<ClassValue>)
    requires forall k :: 0 <= k < |args| && args[k].Str? ==> ' ' !in args[k].s
    ensures forall k :: 0 <= k < |Kept(args)| ==> ' ' !in Kept(args)[k]
    decreases |args|
  {
    if args != [] {
      assert forall k :: 1 <= k < |args| ==> args[k] == args[1..][k - 1];
      KeptNoSpace(args[1..]);
    }
  }

  // ---------------------------------------------------------------------------
  // What an inline diff shows on each side
  // ---------------------------------------------------------------------------

  /** The values of the changes not tagged `drop`, joined. */
  function TextWithout(cs: seq<Change>, drop: ChangeTag): string {
    if cs == [] then []
    else (if cs[0].tag == drop then [] else cs[0].value) + TextWithout(cs[1..], drop)
  }

  /** The old line as the changes show it: everything but the added spans. */
  function OldText(cs: seq<Change>): string {
    TextWithout(cs, Added)
  }

  /** The new line as the changes show it: everything but the removed spans. */
  function NewText(cs: seq<Change>): string {
    TextWithout(cs, Removed)
  }

  lemma TextWithoutSingle(c: Change, drop: ChangeTag)
    ensures TextWithout([c], drop) == if c.tag == drop then [] else c.value
  {
    assert [c][1..] == [];
  }

  lemma {:induction false} TextWithoutAppend(a: seq<Change>, b: seq<Change>, drop: ChangeTag)
    ensures TextWithout(a + b, drop) == TextWithout(a, drop) + TextWithout(b, drop)
    decreases |a|
  {
    if a == [] {
      assert a + b == b;
    } else {
      assert (a + b)[1..] == a[1..] + b;
      TextWithoutAppend(a[1..], b, drop);
    }
  }

  // ---------------------------------------------------------------------------
  // Tokenising on whitespace: `s.split(/(\s+)/)`
  // ---------------------------------------------------------------------------

  predicate AllSpace(t: string) {
    forall k :: 0 <= k < |t| ==> IsSpace(t[k])
  }

  predicate NoSpace(t: string) {
    forall k :: 0 <= k < |t| ==> !IsSpace(t[k])
  }

  /**
   * The shape of a split on `/(\s+)/`: a whitespace-free chunk, then any number of pairs
   * of a non-empty whitespace run and a whitespace-free chunk; only the first and the last
   * chunk may be empty.
   */
  predicate TokenShape(t: seq<string>)
    decreases |t|
  {
    |t| >= 1 && NoSpace(t[0])
    && (|t| > 1 ==>
      |t| >= 3 && t[1] != [] && AllSpace(t[1]) && (|t| > 3 ==> t[2] != []) && TokenShape(t[2..]))
  }

  /** The length of the longest prefix of `s` made only of whitespace (`space`) or only of other characters. */
  function RunLen(s: string, space: bool): (n: nat)
    ensures n <= |s|
    ensures forall k :: 0 <= k < n ==> IsSpace(s[k]) == space
    ensures n < |s| ==> IsSpace(s[n]) != space
  {
    if s != [] && IsSpace(s[0]) == space then 1 + RunLen(s[1..], space) else 0
  }

  /**
   * `s.split(/(\s+)/)`: the regular expression finds each maximal whitespace run from
   * left to right, and the capture group keeps it as a token between the chunks around it.
   */
  function Tokenize(s: string): seq<string>
    decreases |s|
  {
    var w := RunLen(s, false);
    if w == |s| then [s]
    else
      var rest := s[w..];
      assert IsSpace(rest[0]);
      var sp := RunLen(rest, true);
      [s[..w], rest[..sp]] + Tokenize(rest[sp..])
  }

  /** Joining the tokens gives the string back. */
  lemma {:induction false} TokenizeJoins(s: string)
    ensures Concat(Tokenize(s)) == s
    decreases |s|
  {
    var w := RunLen(s, false);
    if w == |s| {
      assert Concat([s]) == s + Concat([]);
    } else {
      var rest := s[w..];
      assert IsSpace(rest[0]);
      var sp := RunLen(rest, true);
      var word, run, after := s[..w], rest[..sp], rest[sp..];
      assert rest == run + after;
      assert s == word + rest;
      TokenizeJoins(after);
      ConcatCons2(word, run, Tokenize(after));
    }
  }

  /**
   * The tokens have the shape of a split on a capturing whitespace pattern, and a string
   * that starts with a non-whitespace character starts with a non-empty chunk.
   */
  lemma {:induction false} TokenizeShape(s: string)
    ensures TokenShape(Tokenize(s))
    ensures s != [] && !IsSpace(s[0]) ==> Tokenize(s)[0] != []
    decreases |s|
  {
    var w := RunLen(s, false);
    if w == |s| {
      assert s[..w] == s;
    } else {
      var rest := s[w..];
      assert IsSpace(rest[0]);
      var sp := RunLen(rest, true);
      var word, run, after := s[..w], rest[..sp], rest[sp..];
      var tail := Tokenize(after);
      TokenizeShape(after);
      WordRun(s);
      SpaceRun(rest);
      if after != [] {
        assert after[0] == rest[sp];
      } else {
        assert tail == [[]];
      }
      ShapeCons(word, run, tail);
    }
  }

  /** The longest whitespace-free prefix is whitespace-free. */
  lemma WordRun(s: string)
    ensures NoSpace(s[..RunLen(s, false)])
  {
    var word := s[..RunLen(s, false)];
    forall k | 0 <= k < |word| ensures !IsSpace(word[k]) {
      assert word[k] == s[k];
    }
  }

  /** The longest whitespace prefix is all whitespace. */
  lemma SpaceRun(s: string)
    ensures AllSpace(s[..RunLen(s, true)])
  {
    var run := s[..RunLen(s, true)];
    forall k | 0 <= k < |run| ensures IsSpace(run[k]) {
      assert run[k] == s[k];
    }
  }

  /** A chunk and a whitespace run in front of a well-shaped token list keep it well shaped. */
  lemma ShapeCons(w: string, sp: string, tail: seq<string>)
    requires NoSpace(w) && sp != [] && AllSpace(sp)
    requires TokenShape(tail) && (|tail| > 1 ==> tail[0] != [])
    ensures TokenShape([w, sp] + tail)
  {
    assert ([w, sp] + tail)[2..] == tail;
  }

  lemma ConcatCons2(w: string, sp: string, tail: seq<string>)
    ensures Concat([w, sp] + tail) == w + (sp + Concat(tail))
  {
    var t := [w, sp] + tail;
    assert t[1..] == [sp] + tail;
    assert t[1..][1..] == tail;
  }

  /**
   * The split is the only token list of that shape that joins back to `s`: whitespace runs
   * in it are maximal and nothing else is cut.
   */
  lemma {:induction false} TokenizeUnique(t: seq<string>, s: string)
    requires TokenShape(t) && Concat(t) == s
    ensures Tokenize(s) == t
    decreases |t|
  {
    if |t| == 1 {
      assert Concat(t) == t[0] + Concat(t[1..]);
      assert t[1..] == [];
      assert s == t[0];
      assert NoSpace(t[0]);
      var n := RunLen(s, false);
      assert n == |s|;
      assert s[..n] == s;
    } else {
      var w, sp, tail := t[0], t[1], t[2..];
      assert t == [w, sp] + tail;
      assert Concat(t) == w + (sp + Concat(tail)) by {
        assert t[1..] == [sp] + tail;
        assert t[1..][1..] == tail;
      }
      // the first non-space chunk ends exactly where the first whitespace run starts
      assert s[|w|] == sp[0];
      assert forall k :: 0 <= k < |w| ==> s[k] == w[k];
      assert RunLen(s, false) == |w|;
      var rest := s[|w|..];
      assert rest == sp + Concat(tail);
      // the whitespace run is maximal: what follows it is empty or starts with a non-space
      var after := Concat(tail);
      assert after != [] ==> !IsSpace(after[0]) by {
        if after != [] {
          assert Concat(tail) == tail[0] + Concat(tail[1..]);
          assert after[0] == tail[0][0];
        }
      }
      assert forall k :: 0 <= k < |sp| ==> rest[k] == sp[k];
      assert after != [] ==> rest[|sp|] == after[0];
      assert RunLen(rest, true) == |sp|;
      assert s[..|w|] == w;
      assert rest[..|sp|] == sp;
      assert rest[|sp|..] == after;
      TokenizeUnique(tail, after);
    }
  }

  // ---------------------------------------------------------------------------
  // diffCharacters
  // ---------------------------------------------------------------------------

  function Max(a: nat, b: nat): nat {
    if a < b then b else a
  }

  function Min(a: nat, b: nat): nat {
    if a < b then a else b
  }

  /**
   * The changes for index `i`, before merging: one unchanged character when both strings
   * have the same character there; otherwise the old character as removed (if there is
   * one) followed by the new character as added (if there is one).
   */
  function CharStep(a: string, b: string, i: nat): seq<Change>
    requires i < Max(|a|, |b|)
  {
    if i < |a| && i < |b| && a[i] == b[i] then [Change([a[i]], Unchanged)]
    else
      (if i < |a| then [Change([a[i]], Removed)] else [])
      + (if i < |b| then [Change([b[i]], Added)] else [])
  }

  /** The unmerged changes for the indices below `n`. */
  function CharSteps(a: string, b: string, n: nat): seq<Change>
    requires n <= Max(|a|, |b|)
  {
    if n == 0 then [] else CharSteps(a, b, n - 1) + CharStep(a, b, n - 1)
  }

  /** Appending a change: an unchanged change right after an unchanged one extends it. */
  function Push(acc: seq<Change>, c: Change): seq<Change> {
    if c.tag == Unchanged && acc != [] && acc[|acc| - 1].tag == Unchanged
    then acc[..|acc| - 1] + [Change(acc[|acc| - 1].value + c.value, Unchanged)]
    else acc + [c]
  }

  /** Pushing each change in turn onto an empty list. */
  function Coalesce(cs: seq<Change>): seq<Change> {
    if cs == [] then [] else Push(Coalesce(cs[..|cs| - 1]), cs[|cs| - 1])
  }

  /** The specification of `diffCharacters`: a positional comparison up to the longer length. */
  function CharDiff(a: string, b: string): seq<Change> {
    Coalesce(CharSteps(a, b, Max(|a|, |b|)))
  }

  lemma CoalesceSnoc(cs: seq<Change>, c: Change)
    ensures Coalesce(cs + [c]) == Push(Coalesce(cs), c)
  {
    assert (cs + [c])[..|cs|] == cs;
  }

  /** Changes that are not unchanged are appended as they are. */
  lemma {:induction false} CoalesceChanged(cs: seq<Change>, ds: seq<Change>)
    requires forall k :: 0 <= k < |ds| ==> ds[k].tag != Unchanged
    ensures Coalesce(cs + ds) == Coalesce(cs) + ds
    decreases |ds|
  {
    if ds == [] {
      assert cs + ds == cs;
    } else {
      var init, last := ds[..|ds| - 1], ds[|ds| - 1];
      assert cs + ds == (cs + init) + [last];
      assert ds == init + [last];
      CoalesceChanged(cs, init);
      CoalesceSnoc(cs + init, last);
    }
  }

  /** Index `i` holding an equal character: it is pushed onto the merged changes so far. */
  lemma CharStepsNextSame(a: string, b: string, i: nat)
    requires i < |a| && i < |b| && a[i] == b[i]
    ensures Coalesce(CharSteps(a, b, i + 1))
      == Push(Coalesce(CharSteps(a, b, i)), Change([a[i]], Unchanged))
  {
    CoalesceSnoc(CharSteps(a, b, i), Change([a[i]], Unchanged));
  }

  /** A mismatch at index `i`: its removed and added changes are appended as they are. */
  lemma CharStepsNextDiffer(a: string, b: string, i: nat)
    requires i < Max(|a|, |b|)
    requires !(i < |a| && i < |b| && a[i] == b[i])
    ensures Coalesce(CharSteps(a, b, i + 1)) == Coalesce(CharSteps(a, b, i)) + CharStep(a, b, i)
  {
    var removed: seq<Change> := if i < |a| then [Change([a[i]], Removed)] else [];
    var added: seq<Change> := if i < |b| then [Change([b[i]], Added)] else [];
    var step := CharStep(a, b, i);
    assert step == removed + added;
    assert forall k :: 0 <= k < |step| ==> step[k].tag != Unchanged;
    assert CharSteps(a, b, i + 1) == CharSteps(a, b, i) + step;
    CoalesceChanged(CharSteps(a, b, i), step);
  }

  /**
   * The changes `diffCharacters` has built after the indices below `n`, index by index:
   * an equal character is pushed (extending a trailing unchanged change), a mismatch
   * appends its removed and added changes.
   */
  function CharDiffPrefix(a: string, b: string, n: nat): seq<Change>
    requires n <= Max(|a|, |b|)
  {
    if n == 0 then []
    else
      var i := n - 1;
      if i < |a| && i < |b| && a[i] == b[i]
      then Push(CharDiffPrefix(a, b, i), Change([a[i]], Unchanged))
      else CharDiffPrefix(a, b, i) + CharStep(a, b, i)
  }

  /** Building the changes index by index is merging the per-index changes. */
  lemma {:induction false} CharDiffPrefixMerged(a: string, b: string, n: nat)
    requires n <= Max(|a|, |b|)
    ensures CharDiffPrefix(a, b, n) == Coalesce(CharSteps(a, b, n))
  {
    if n > 0 {
      var i := n - 1;
      CharDiffPrefixMerged(a, b, i);
      if i < |a| && i < |b| && a[i] == b[i] {
        assert CharDiffPrefix(a, b, n) == Push(CharDiffPrefix(a, b, i), Change([a[i]], Unchanged));
        CharStepsNextSame(a, b, i);
      } else {
        assert CharDiffPrefix(a, b, n) == CharDiffPrefix(a, b, i) + CharStep(a, b, i);
        CharStepsNextDiffer(a, b, i);
      }
    }
  }

  /** One more index of `CharDiffPrefix`, in the terms the loop of `diffCharacters` uses. */
  lemma CharDiffPrefixNext(a: string, b: string, i: nat)
    requires i < Max(|a|, |b|)
    ensures var acc := CharDiffPrefix(a, b, i);
      var o: string := if i < |a| then [a[i]] else [];
      var n: string := if i < |b| then [b[i]] else [];
      CharDiffPrefix(a, b, i + 1) ==
        if o == n then
          if |acc| > 0 && acc[|acc| - 1].tag == Unchanged
          then acc[..|acc| - 1] + [Change(acc[|acc| - 1].value + o, Unchanged)]
          else acc + [Change(o, Unchanged)]
        else if o != [] && n != [] then acc + [Change(o, Removed)] + [Change(n, Added)]
        else if o != [] then acc + [Change(o, Removed)]
        else acc + [Change(n, Added)]
  {
    var acc := CharDiffPrefix(a, b, i);
    if i < |a| && i < |b| && a[i] == b[i] {
      assert CharDiffPrefix(a, b, i + 1) == Push(acc, Change([a[i]], Unchanged));
    } else {
      assert CharDiffPrefix(a, b, i + 1) == acc + CharStep(a, b, i);
    }
  }

  /** `diffCharacters(oldStr, newStr)`. */
  method DiffCharacters(oldStr: string, newStr: string) returns (changes: seq<Change>)
    ensures changes == CharDiff(oldStr, newStr)
  {
    changes := [];
    var maxLen := Max(|oldStr|, |newStr|);
    for i := 0 to maxLen
      invariant changes == CharDiffPrefix(oldStr, newStr, i)
    {
      var oldChar := if i < |oldStr| then [oldStr[i]] else [];
      var newChar := if i < |newStr| then [newStr[i]] else [];
      CharDiffPrefixNext(oldStr, newStr, i);
      if oldChar == newChar {
        if |changes| > 0 && changes[|changes| - 1].tag == Unchanged {
          changes := changes[..|changes| - 1] + [Change(changes[|changes| - 1].value + oldChar, Unchanged)];
        } else {
          changes := changes + [Change(oldChar, Unchanged)];
        }
      } else {
        if oldChar != [] {
          changes := changes + [Change(oldChar, Removed)];
        }
        if newChar != [] {
          changes := changes + [Change(newChar, Added)];
        }
      }
    }
    CharDiffPrefixMerged(oldStr, newStr, maxLen);
  }

  lemma PushText(acc: seq<Change>, c: Change, drop: ChangeTag)
    requires drop != Unchanged
    ensures TextWithout(Push(acc, c), drop) == TextWithout(acc, drop) + TextWithout([c], drop)
  {
    if c.tag == Unchanged && acc != [] && acc[|acc| - 1].tag == Unchanged {
      var init, last := acc[..|acc| - 1], acc[|acc| - 1];
      assert acc == init + [last];
      TextWithoutAppend(init, [last], drop);
      TextWithoutAppend(init, [Change(last.value + c.value, Unchanged)], drop);
    } else {
      TextWithoutAppend(acc, [c], drop);
    }
  }

  /** Merging adjacent unchanged changes does not change what either side shows. */
  lemma {:induction false} CoalesceText(cs: seq<Change>, drop: ChangeTag)
    requires drop != Unchanged
    ensures TextWithout(Coalesce(cs), drop) == TextWithout(cs, drop)
    decreases |cs|
  {
    if cs != [] {
      var init, last := cs[..|cs| - 1], cs[|cs| - 1];
      assert cs == init + [last];
      CoalesceText(init, drop);
      PushText(Coalesce(init), last, drop);
      TextWithoutAppend(init, [last], drop);
    }
  }

  lemma StepText(a: string, b: string, i: nat)
    requires i < Max(|a|, |b|)
    ensures OldText(CharStep(a, b, i)) == if i < |a| then [a[i]] else []
    ensures NewText(CharStep(a, b, i)) == if i < |b| then [b[i]] else []
  {
    var ra: seq<Change> := if i < |a| then [Change([a[i]], Removed)] else [];
    var rb: seq<Change> := if i < |b| then [Change([b[i]], Added)] else [];
    if i < |a| && i < |b| && a[i] == b[i] {
      TextWithoutSingle(Change([a[i]], Unchanged), Added);
      TextWithoutSingle(Change([a[i]], Unchanged), Removed);
    } else {
      TextWithoutAppend(ra, rb, Added);
      TextWithoutAppend(ra, rb, Removed);
      if i < |a| {
        TextWithoutSingle(Change([a[i]], Removed), Added);
        TextWithoutSingle(Change([a[i]], Removed), Removed);
      }
      if i < |b| {
        TextWithoutSingle(Change([b[i]], Added), Added);
        TextWithoutSingle(Change([b[i]], Added), Removed);
      }
    }
  }

  /** The first `i + 1` characters (as far as there are any) extend the first `i`. */
  lemma PrefixStep(a: string, i: nat)
    ensures a[..Min(i + 1, |a|)] == a[..Min(i, |a|)] + (if i < |a| then [a[i]] else [])
  {
    if i < |a| {
      assert a[..i + 1] == a[..i] + [a[i]];
    }
  }

  lemma {:induction false} CharStepsText(a: string, b: string, n: nat)
    requires n <= Max(|a|, |b|)
    ensures OldText(CharSteps(a, b, n)) == a[..Min(n, |a|)]
    ensures NewText(CharSteps(a, b, n)) == b[..Min(n, |b|)]
  {
    if n > 0 {
      var i := n - 1;
      CharStepsText(a, b, i);
      StepText(a, b, i);
      TextWithoutAppend(CharSteps(a, b, i), CharStep(a, b, i), Added);
      TextWithoutAppend(CharSteps(a, b, i), CharStep(a, b, i), Removed);
      PrefixStep(a, i);
      PrefixStep(b, i);
    }
  }

  /**
   * Round trip of the character diff: dropping the added spans gives the old string back
   * and dropping the removed spans gives the new string back.
   */
  lemma CharDiffRoundTrip(a: string, b: string)
    ensures OldText(CharDiff(a, b)) == a && NewText(CharDiff(a, b)) == b
  {
    var n := Max(|a|, |b|);
    CharStepsText(a, b, n);
    CoalesceText(CharSteps(a, b, n), Added);
    CoalesceText(CharSteps(a, b, n), Removed);
    assert a[..Min(n, |a|)] == a;
    assert b[..Min(n, |b|)] == b;
  }

  /** No change is empty and no two unchanged changes are adjacent. */
  predicate Tidy(cs: seq<Change>) {
    (forall k :: 0 <= k < |cs| ==> cs[k].value != [])
    && forall k :: 0 < k < |cs| ==> !(cs[k - 1].tag == Unchanged && cs[k].tag == Unchanged)
  }

  lemma PushTidy(acc: seq<Change>, c: Change)
    requires Tidy(acc) && c.value != []
    ensures Tidy(Push(acc, c))
  {
  }

  lemma {:induction false} CharStepsNonEmpty(a: string, b: string, n: nat)
    requires n <= Max(|a|, |b|)
    ensures forall k :: 0 <= k < |CharSteps(a, b, n)| ==> CharSteps(a, b, n)[k].value != []
  {
    if n > 0 {
      CharStepsNonEmpty(a, b, n - 1);
    }
  }

  lemma {:induction false} CoalesceTidy(cs: seq<Change>)
    requires forall k :: 0 <= k < |cs| ==> cs[k].value != []
    ensures Tidy(Coalesce(cs))
    decreases |cs|
  {
    if cs != [] {
      CoalesceTidy(cs[..|cs| - 1]);
      PushTidy(Coalesce(cs[..|cs| - 1]), cs[|cs| - 1]);
    }
  }

  /**
   * The character diff never holds an empty change and never two unchanged changes in a
   * row: equal characters extend the trailing unchanged change.
   */
  lemma CharDiffTidy(a: string, b: string)
    ensures Tidy(CharDiff(a, b))
  {
    CharStepsNonEmpty(a, b, Max(|a|, |b|));
    CoalesceTidy(CharSteps(a, b, Max(|a|, |b|)));
  }

  lemma PushUnchanged(v: string, w: string)
    ensures Push([Change(v, Unchanged)], Change(w, Unchanged)) == [Change(v + w, Unchanged)]
  {
    assert [Change(v, Unchanged)][..0] == [];
  }

  lemma {:induction false} CharDiffPrefixSame(a: string, n: nat)
    requires 0 < n <= |a|
    ensures CharDiffPrefix(a, a, n) == [Change(a[..n], Unchanged)]
  {
    var c := Change([a[n - 1]], Unchanged);
    assert CharDiffPrefix(a, a, n) == Push(CharDiffPrefix(a, a, n - 1), c);
    if n == 1 {
      assert CharDiffPrefix(a, a, 0) == [];
      assert a[..1] == [a[0]];
    } else {
      CharDiffPrefixSame(a, n - 1);
      PushUnchanged(a[..n - 1], [a[n - 1]]);
      assert a[..n - 1] + [a[n - 1]] == a[..n];
    }
  }

  /** Two equal strings compare as one unchanged change (none for the empty string). */
  lemma CharDiffSame(a: string)
    ensures CharDiff(a, a) == if a == [] then [] else [Change(a, Unchanged)]
  {
    if a != [] {
      CharDiffPrefixSame(a, |a|);
    }
    CharDiffPrefixMerged(a, a, |a|);
    assert a[..|a|] == a;
  }

  // ---------------------------------------------------------------------------
  // diffWordsWithSpace
  // ---------------------------------------------------------------------------

  /** What one pair of tokens at the same position becomes. */
  function TokenPair(o: string, n: string): seq<Change> {
    if o == n then [Change(o, Unchanged)] else CharDiff(o, n)
  }

  /**
   * The walk over the two token lists: while both have tokens the heads are compared
   * with each other; afterwards the leftover tokens go out whole.
   */
  function Walk(ot: seq<string>, nt: seq<string>): seq<Change>
    decreases |ot| + |nt|
  {
    if ot != [] && nt != [] then TokenPair(ot[0], nt[0]) + Walk(ot[1..], nt[1..])
    else if ot != [] then [Change(ot[0], Removed)] + Walk(ot[1..], nt)
    else if nt != [] then [Change(nt[0], Added)] + Walk(ot, nt[1..])
    else []
  }

  /** The specification of `diffWordsWithSpace`. */
  function WordDiff(oldStr: string, newStr: string): seq<Change> {
    if oldStr == newStr then [Change(oldStr, Unchanged)]
    else Walk(Tokenize(oldStr), Tokenize(newStr))
  }


  /**
   * What position `k` of the two token lists contributes: the pair compared when both
   * lists reach that far, otherwise the one token left over, whole.
   */
  function PositionStep(ot: seq<string>, nt: seq<string>, k: nat): seq<Change>
    requires k < Max(|ot|, |nt|)
  {
    if k < |ot| && k < |nt| then TokenPair(ot[k], nt[k])
    else if k < |ot| then [Change(ot[k], Removed)]
    else [Change(nt[k], Added)]
  }

  /** The contributions of the positions below `n`, in order. */
  function Positions(ot: seq<string>, nt: seq<string>, n: nat): seq<Change>
    requires n <= Max(|ot|, |nt|)
  {
    if n == 0 then [] else Positions(ot, nt, n - 1) + PositionStep(ot, nt, n - 1)
  }

  /** While both cursors are inside their lists they move together, and position `i` contributes the pair. */
  lemma PositionsPair(ot: seq<string>, nt: seq<string>, i: nat, j: nat)
    requires i < |ot| && j < |nt|
    requires (i < j ==> i == |ot|) && (j < i ==> j == |nt|)
    ensures i == j && Max(i + 1, j + 1) == i + 1 && Max(i, j) == i
    ensures Positions(ot, nt, i + 1) == Positions(ot, nt, i) + TokenPair(ot[i], nt[j])
  {
  }

  /** Once the new list is used up, position `i` contributes the old token, removed. */
  lemma PositionsOld(ot: seq<string>, nt: seq<string>, i: nat, j: nat)
    requires i < |ot| && j == |nt| && (j < i ==> j == |nt|) && (i < j ==> i == |ot|)
    ensures Max(i, j) == i && Max(i + 1, j) == i + 1
    ensures Positions(ot, nt, i + 1) == Positions(ot, nt, i) + [Change(ot[i], Removed)]
  {
  }

  /** Once the old list is used up, position `j` contributes the new token, added. */
  lemma PositionsNew(ot: seq<string>, nt: seq<string>, i: nat, j: nat)
    requires i == |ot| && j < |nt| && (j < i ==> j == |nt|)
    ensures Max(i, j) == j && Max(i, j + 1) == j + 1
    ensures Positions(ot, nt, j + 1) == Positions(ot, nt, j) + [Change(nt[j], Added)]
  {
  }

  /** Seen from position `k - 1` of both lists, the walk first emits what that position contributes. */
  lemma WalkAt(ot: seq<string>, nt: seq<string>, k: nat)
    requires 0 < k <= Max(|ot|, |nt|)
    ensures Walk(ot[Min(k - 1, |ot|)..], nt[Min(k - 1, |nt|)..])
      == PositionStep(ot, nt, k - 1) + Walk(ot[Min(k, |ot|)..], nt[Min(k, |nt|)..])
  {
    var p := k - 1;
    if p < |ot| {
      assert ot[p..][0] == ot[p] && ot[p..][1..] == ot[k..];
    } else {
      assert ot[|ot|..] == [];
    }
    if p < |nt| {
      assert nt[p..][0] == nt[p] && nt[p..][1..] == nt[k..];
    } else {
      assert nt[|nt|..] == [];
    }
  }

  /** Regrouping `x + (y + z)` as `(x + y) + z`, for output built front to back. */
  lemma AppendRegroup<T>(x: seq<T>, y: seq<T>, z: seq<T>, w: seq<T>, total: seq<T>)
    requires x + w == total && w == y + z
    ensures (x + y) + z == total
  {
  }

  /** After the positions below `k` the walk continues from position `k` of each list. */
  lemma {:induction false} WalkSuffix(ot: seq<string>, nt: seq<string>, k: nat)
    requires k <= Max(|ot|, |nt|)
    ensures Positions(ot, nt, k) + Walk(ot[Min(k, |ot|)..], nt[Min(k, |nt|)..]) == Walk(ot, nt)
  {
    if k == 0 {
      assert ot[0..] == ot && nt[0..] == nt;
    } else {
      WalkSuffix(ot, nt, k - 1);
      WalkAt(ot, nt, k);
      var before, step := Positions(ot, nt, k - 1), PositionStep(ot, nt, k - 1);
      var here := Walk(ot[Min(k - 1, |ot|)..], nt[Min(k - 1, |nt|)..]);
      var rest := Walk(ot[Min(k, |ot|)..], nt[Min(k, |nt|)..]);
      AppendRegroup(before, step, rest, here, Walk(ot, nt));
    }
  }

  /**
   * The walk never realigns the lists: position `k` of the old tokens is only ever
   * compared with position `k` of the new tokens, and the tokens past the end of the
   * shorter list go out whole and in order, as removed if old and as added if new.
   */
  lemma WalkLockstep(ot: seq<string>, nt: seq<string>)
    ensures Walk(ot, nt) == Positions(ot, nt, Max(|ot|, |nt|))
  {
    var m := Max(|ot|, |nt|);
    WalkSuffix(ot, nt, m);
    assert ot[Min(m, |ot|)..] == [] && nt[Min(m, |nt|)..] == [];
  }

  /**
   * `diffWordsWithSpace(oldStr, newStr)`: identical lines give one unchanged change;
   * otherwise both lines are split on whitespace and the token lists are walked.
   */
  method DiffWordsWithSpace(oldStr: string, newStr: string) returns (changes: seq<Change>)
    ensures changes == WordDiff(oldStr, newStr)
    ensures OldText(changes) == oldStr && NewText(changes) == newStr
    ensures oldStr == newStr ==> changes == [Change(oldStr, Unchanged)]
  {
    WordDiffRoundTrip(oldStr, newStr);
    if oldStr == newStr {
      return [Change(oldStr, Unchanged)];
    }
    var oldWords := Tokenize(oldStr);
    var newWords := Tokenize(newStr);
    changes := WalkTokens(oldWords, newWords);
  }

  /**
   * The `while` loop of `diffWordsWithSpace`: equal tokens at the two cursors go out
   * whole and unchanged, unequal ones are compared character by character, and once one
   * list is used up the other one's tokens go out whole.
   */
  method WalkTokens(oldWords: seq<string>, newWords: seq<string>) returns (changes: seq<Change>)
    ensures changes == Walk(oldWords, newWords)
  {
    changes := [];
    var i, j := 0, 0;
    while i < |oldWords| || j < |newWords|
      invariant i <= |oldWords| && j <= |newWords|
      invariant i < j ==> i == |oldWords|
      invariant j < i ==> j == |newWords|
      invariant changes == Positions(oldWords, newWords, Max(i, j))
      decreases |oldWords| - i + |newWords| - j
    {
      if i < |oldWords| && j < |newWords| && oldWords[i] == newWords[j] {
        PositionsPair(oldWords, newWords, i, j);
        assert TokenPair(oldWords[i], newWords[j]) == [Change(oldWords[i], Unchanged)];
        changes := changes + [Change(oldWords[i], Unchanged)];
        i, j := i + 1, j + 1;
      } else if i < |oldWords| && j < |newWords| {
        PositionsPair(oldWords, newWords, i, j);
        var charDiffs := DiffCharacters(oldWords[i], newWords[j]);
        assert TokenPair(oldWords[i], newWords[j]) == charDiffs;
        changes := changes + charDiffs;
        i, j := i + 1, j + 1;
      } else if i < |oldWords| {
        PositionsOld(oldWords, newWords, i, j);
        changes := changes + [Change(oldWords[i], Removed)];
        i := i + 1;
      } else {
        PositionsNew(oldWords, newWords, i, j);
        changes := changes + [Change(newWords[j], Added)];
        j := j + 1;
      }
    }
    WalkLockstep(oldWords, newWords);
  }

  /** The walk shows every old token on the old side and every new token on the new side. */
  lemma {:induction false} WalkText(ot: seq<string>, nt: seq<string>)
    ensures OldText(Walk(ot, nt)) == Concat(ot)
    ensures NewText(Walk(ot, nt)) == Concat(nt)
    decreases |ot| + |nt|
  {
    if ot != [] && nt != [] {
      WalkText(ot[1..], nt[1..]);
      TextWithoutAppend(TokenPair(ot[0], nt[0]), Walk(ot[1..], nt[1..]), Added);
      TextWithoutAppend(TokenPair(ot[0], nt[0]), Walk(ot[1..], nt[1..]), Removed);
      CharDiffRoundTrip(ot[0], nt[0]);
    } else if ot != [] {
      WalkText(ot[1..], nt);
      TextWithoutAppend([Change(ot[0], Removed)], Walk(ot[1..], nt), Added);
      TextWithoutAppend([Change(ot[0], Removed)], Walk(ot[1..], nt), Removed);
    } else if nt != [] {
      WalkText(ot, nt[1..]);
      TextWithoutAppend([Change(nt[0], Added)], Walk(ot, nt[1..]), Added);
      TextWithoutAppend([Change(nt[0], Added)], Walk(ot, nt[1..]), Removed);
    }
  }

  /**
   * Round trip of the inline diff: dropping the added spans reproduces the deleted line
   * and dropping the removed spans reproduces the added line.
   */
  lemma WordDiffRoundTrip(oldStr: string, newStr: string)
    ensures OldText(WordDiff(oldStr, newStr)) == oldStr
    ensures NewText(WordDiff(oldStr, newStr)) == newStr
  {
    if oldStr == newStr {
      TextWithoutSingle(Change(oldStr, Unchanged), Added);
      TextWithoutSingle(Change(oldStr, Unchanged), Removed);
    } else {
      var ot, nt := Tokenize(oldStr), Tokenize(newStr);
      WalkText(ot, nt);
      TokenizeJoins(oldStr);
      TokenizeJoins(newStr);
    }
  }
}
