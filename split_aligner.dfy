/**
 * `generateSplitLines` of src/DiffViewer.tsx: pairs the parsed lines of one file into the
 * rows of the two-column view. Context and hunk lines stand on both sides; a run of
 * deleted lines and the run of added lines right after it are paired position by
 * position, with an inline diff for each pair; an added line with no deletions before it
 * stands alone on the right.
 */
module SplitAligner {
  import opened Wrappers
  import opened Types
  import opened Utils

  /** The first index at or after `from` whose line is not of kind `kind` (`|lines|` if none). */
  function RunEnd(lines: seq<DiffLine>, kind: LineType, from: nat): (r: nat)
    requires from <= |lines|
    ensures from <= r <= |lines|
    decreases |lines| - from
  {
    if from < |lines| && lines[from].kind == kind then RunEnd(lines, kind, from + 1) else from
  }

  /**
   * Row `l` of a block: the `l`-th deleted and the `l`-th added line where there is one,
   * and the inline diff of their contents when there are both.
   */
  function PairRow(dels: seq<DiffLine>, adds: seq<DiffLine>, l: nat, diff: (string, string) -> seq<Change>): SplitDiffLine {
    var left := if l < |dels| then Some(dels[l]) else None;
    var right := if l < |adds| then Some(adds[l]) else None;
    var diffs := if left.Some? && right.Some?
      then Some(diff(left.value.content, right.value.content))
      else None;
    SplitDiffLine(left, right, diffs)
  }

  /** The rows of a block of deletions followed by additions: as many as the longer run. */
  function Block(dels: seq<DiffLine>, adds: seq<DiffLine>, diff: (string, string) -> seq<Change>): seq<SplitDiffLine> {
    seq(Max(|dels|, |adds|), l requires 0 <= l => PairRow(dels, adds, l, diff))
  }

  /** The rows for the lines from index `i` on. */
  function AlignFrom(lines: seq<DiffLine>, i: nat, diff: (string, string) -> seq<Change>): seq<SplitDiffLine>
    requires i <= |lines|
    decreases |lines| - i
  {
    if i == |lines| then []
    else
      var line := lines[i];
      if line.kind == Context || line.kind == Hunk then
        [SplitDiffLine(Some(line), Some(line), None)] + AlignFrom(lines, i + 1, diff)
      else if line.kind == Del then
        var d := RunEnd(lines, Del, i);
        var e := RunEnd(lines, Add, d);
        Block(lines[i..d], lines[d..e], diff) + AlignFrom(lines, e, diff)
      else
        [SplitDiffLine(None, Some(line), None)] + AlignFrom(lines, i + 1, diff)
  }

  /** The specification of `generateSplitLines`. */
  function Align(lines: seq<DiffLine>): seq<SplitDiffLine> {
    AlignFrom(lines, 0, WordDiff)
  }

  /** `RunEnd` stops at the first line of another kind. */
  lemma {:induction false} RunEndKinds(lines: seq<DiffLine>, kind: LineType, from: nat)
    requires from <= |lines|
    ensures forall m :: from <= m < RunEnd(lines, kind, from) ==> lines[m].kind == kind
    ensures RunEnd(lines, kind, from) < |lines| ==> lines[RunEnd(lines, kind, from)].kind != kind
    decreases |lines| - from
  {
    if from < |lines| && lines[from].kind == kind {
      RunEndKinds(lines, kind, from + 1);
    }
  }

  /** A run found by scanning is the one `RunEnd` describes. */
  lemma {:induction false} RunEndExact(lines: seq<DiffLine>, kind: LineType, from: nat, r: nat)
    requires from <= r <= |lines|
    requires forall m :: from <= m < r ==> lines[m].kind == kind
    requires r < |lines| ==> lines[r].kind != kind
    ensures RunEnd(lines, kind, from) == r
    decreases r - from
  {
    if from < r {
      RunEndExact(lines, kind, from + 1, r);
    }
  }

  lemma {:induction false} BlockNext(dels: seq<DiffLine>, adds: seq<DiffLine>, diff: (string, string) -> seq<Change>, l: nat)
    requires l < Max(|dels|, |adds|)
    ensures Block(dels, adds, diff)[..l + 1] == Block(dels, adds, diff)[..l] + [PairRow(dels, adds, l, diff)]
  {
    assert Block(dels, adds, diff)[l] == PairRow(dels, adds, l, diff);
  }

  /**
   * The `for` loop of `generateSplitLines` over one block: row `l` takes the `l`-th deleted
   * and the `l`-th added line where there is one, and the inline diff of the two when both
   * are there.
   */
  method PairBlock(delBlock: seq<DiffLine>, addBlock: seq<DiffLine>) returns (rows: seq<SplitDiffLine>)
    ensures rows == Block(delBlock, addBlock, WordDiff)
  {
    rows := [];
    var maxLength := Max(|delBlock|, |addBlock|);
    for l := 0 to maxLength
      invariant rows == Block(delBlock, addBlock, WordDiff)[..l]
    {
      var left := if l < |delBlock| then Some(delBlock[l]) else None;
      var right := if l < |addBlock| then Some(addBlock[l]) else None;
      var diffs := None;
      if left.Some? && right.Some? {
        var d := DiffWordsWithSpace(left.value.content, right.value.content);
        diffs := Some(d);
      }
      BlockNext(delBlock, addBlock, WordDiff, l);
      assert PairRow(delBlock, addBlock, l, WordDiff) == SplitDiffLine(left, right, diffs);
      rows := rows + [SplitDiffLine(left, right, diffs)];
    }
    assert Block(delBlock, addBlock, WordDiff)[..maxLength] == Block(delBlock, addBlock, WordDiff);
  }

  /** Where the lines from `i` on start with a run of deletions, its block comes first. */
  lemma {:induction false} AlignBlockAt(lines: seq<DiffLine>, i: nat, e: nat, k: nat, diff: (string, string) -> seq<Change>)
    requires i < |lines| && lines[i].kind == Del
    requires e == RunEnd(lines, Del, i + 1) && k == RunEnd(lines, Add, e)
    ensures AlignFrom(lines, i, diff) == Block(lines[i..e], lines[e..k], diff) + AlignFrom(lines, k, diff)
  {
    assert RunEnd(lines, Del, i) == e;
  }

  /**
   * The branch of `generateSplitLines` for a deleted line: it scans to the end of the run
   * of deletions (`j`) and of the run of additions after it (`k`), and emits their block.
   */
  method PairRuns(lines: seq<DiffLine>, i: nat) returns (rows: seq<SplitDiffLine>, k: nat)
    requires i < |lines| && lines[i].kind == Del
    ensures i < k <= |lines|
    ensures k == RunEnd(lines, Add, RunEnd(lines, Del, i))
    ensures rows == Block(lines[i..RunEnd(lines, Del, i)], lines[RunEnd(lines, Del, i)..k], WordDiff)
    ensures AlignFrom(lines, i, WordDiff) == rows + AlignFrom(lines, k, WordDiff)
  {
    var j := i;
    while j + 1 < |lines| && lines[j + 1].kind == Del
      invariant i <= j < |lines|
      invariant forall m :: i < m <= j ==> lines[m].kind == Del
    {
      j := j + 1;
    }
    k := j + 1;
    while k < |lines| && lines[k].kind == Add
      invariant j < k <= |lines|
      invariant forall m :: j < m < k ==> lines[m].kind == Add
    {
      k := k + 1;
    }
    RunEndExact(lines, Del, i + 1, j + 1);
    RunEndExact(lines, Del, i, j + 1);
    RunEndExact(lines, Add, j + 1, k);
    rows := PairBlock(lines[i..j + 1], lines[j + 1..k]);
    AlignBlockAt(lines, i, j + 1, k, WordDiff);
  }

  /** A line standing alone as a row is followed by the rows for the lines after it. */
  lemma AlignLineStep(lines: seq<DiffLine>, i: nat, before: seq<SplitDiffLine>, row: SplitDiffLine)
    requires i < |lines| && lines[i].kind != Del
    requires before + AlignFrom(lines, i, WordDiff) == Align(lines)
    requires row == if lines[i].kind == Add then SplitDiffLine(None, Some(lines[i]), None)
      else SplitDiffLine(Some(lines[i]), Some(lines[i]), None)
    ensures (before + [row]) + AlignFrom(lines, i + 1, WordDiff) == Align(lines)
  {
    AppendRegroup(before, [row], AlignFrom(lines, i + 1, WordDiff), AlignFrom(lines, i, WordDiff), Align(lines));
  }

  /** `generateSplitLines(lines)`. */
  method GenerateSplitLines(lines: seq<DiffLine>) returns (splitLines: seq<SplitDiffLine>)
    ensures splitLines == Align(lines)
  {
    splitLines := [];
    var i := 0;
    while i < |lines|
      invariant i <= |lines|
      invariant splitLines + AlignFrom(lines, i, WordDiff) == Align(lines)
      decreases |lines| - i
    {
      var line := lines[i];
      if line.kind == Context || line.kind == Hunk {
        AlignLineStep(lines, i, splitLines, SplitDiffLine(Some(line), Some(line), None));
        splitLines := splitLines + [SplitDiffLine(Some(line), Some(line), None)];
        i := i + 1;
      } else if line.kind == Del {
        var rows, k := PairRuns(lines, i);
        AppendRegroup(splitLines, rows, AlignFrom(lines, k, WordDiff), AlignFrom(lines, i, WordDiff), Align(lines));
        splitLines := splitLines + rows;
        i := k;
      } else {
        AlignLineStep(lines, i, splitLines, SplitDiffLine(None, Some(line), None));
        splitLines := splitLines + [SplitDiffLine(None, Some(line), None)];
        i := i + 1;
      }
    }
    assert splitLines + [] == splitLines;
  }

  // Properties of the alignment

  /** The lines shown in the left column, top to bottom. */
  function Lefts(rows: seq<SplitDiffLine>): seq<DiffLine> {
    if rows == [] then []
    else (if rows[0].left.Some? then [rows[0].left.value] else []) + Lefts(rows[1..])
  }

  /** The lines shown in the right column, top to bottom. */
  function Rights(rows: seq<SplitDiffLine>): seq<DiffLine> {
    if rows == [] then []
    else (if rows[0].right.Some? then [rows[0].right.value] else []) + Rights(rows[1..])
  }

  /** `lines` with the lines of kind `kind` taken out, order kept. */
  function Without(lines: seq<DiffLine>, kind: LineType): seq<DiffLine> {
    if lines == [] then []
    else (if lines[0].kind == kind then [] else [lines[0]]) + Without(lines[1..], kind)
  }

  lemma {:induction false} LeftsAppend(a: seq<SplitDiffLine>, b: seq<SplitDiffLine>)
    ensures Lefts(a + b) == Lefts(a) + Lefts(b)
    decreases |a|
  {
    if a == [] {
      assert a + b == b;
    } else {
      var ab := a + b;
      assert ab[0] == a[0];
      assert ab[1..] == a[1..] + b;
      LeftsAppend(a[1..], b);
      var head := if a[0].left.Some? then [a[0].left.value] else [];
      calc {
        Lefts(ab);
        head + Lefts(a[1..] + b);
        head + (Lefts(a[1..]) + Lefts(b));
        (head + Lefts(a[1..])) + Lefts(b);
      }
    }
  }

  lemma {:induction false} RightsAppend(a: seq<SplitDiffLine>, b: seq<SplitDiffLine>)
    ensures Rights(a + b) == Rights(a) + Rights(b)
    decreases |a|
  {
    if a == [] {
      assert a + b == b;
    } else {
      var ab := a + b;
      assert ab[0] == a[0];
      assert ab[1..] == a[1..] + b;
      RightsAppend(a[1..], b);
      var head := if a[0].right.Some? then [a[0].right.value] else [];
      calc {
        Rights(ab);
        head + Rights(a[1..] + b);
        head + (Rights(a[1..]) + Rights(b));
        (head + Rights(a[1..])) + Rights(b);
      }
    }
  }

  lemma {:induction false} WithoutAppend(a: seq<DiffLine>, b: seq<DiffLine>, kind: LineType)
    ensures Without(a + b, kind) == Without(a, kind) + Without(b, kind)
    decreases |a|
  {
    if a == [] {
      assert a + b == b;
    } else {
      assert (a + b)[0] == a[0];
      assert (a + b)[1..] == a[1..] + b;
      WithoutAppend(a[1..], b, kind);
    }
  }

  /** Taking out a kind no line has keeps every line; taking out the kind all lines have keeps none. */
  lemma {:induction false} WithoutUniform(lines: seq<DiffLine>, kind: LineType, other: LineType)
    requires kind != other
    requires forall m :: 0 <= m < |lines| ==> lines[m].kind == kind
    ensures Without(lines, other) == lines
    ensures Without(lines, kind) == []
    decreases |lines|
  {
    if lines != [] {
      WithoutUniform(lines[1..], kind, other);
    }
  }

  /** The left column of a block, from row `l` on, is the deletions from `l` on. */
  lemma {:induction false} BlockLefts(dels: seq<DiffLine>, adds: seq<DiffLine>, diff: (string, string) -> seq<Change>, l: nat)
    requires l <= Max(|dels|, |adds|)
    ensures Lefts(Block(dels, adds, diff)[l..]) == dels[Min(l, |dels|)..]
    decreases Max(|dels|, |adds|) - l
  {
    var rows := Block(dels, adds, diff)[l..];
    if l < Max(|dels|, |adds|) {
      BlockLefts(dels, adds, diff, l + 1);
      assert rows[1..] == Block(dels, adds, diff)[l + 1..];
      assert rows[0] == PairRow(dels, adds, l, diff);
      if l < |dels| {
        assert dels[l..] == [dels[l]] + dels[l + 1..];
      }
    } else {
      assert rows == [];
    }
  }

  /** The right column of a block, from row `l` on, is the additions from `l` on. */
  lemma {:induction false} BlockRights(dels: seq<DiffLine>, adds: seq<DiffLine>, diff: (string, string) -> seq<Change>, l: nat)
    requires l <= Max(|dels|, |adds|)
    ensures Rights(Block(dels, adds, diff)[l..]) == adds[Min(l, |adds|)..]
    decreases Max(|dels|, |adds|) - l
  {
    var rows := Block(dels, adds, diff)[l..];
    if l < Max(|dels|, |adds|) {
      BlockRights(dels, adds, diff, l + 1);
      assert rows[1..] == Block(dels, adds, diff)[l + 1..];
      assert rows[0] == PairRow(dels, adds, l, diff);
      if l < |adds| {
        assert adds[l..] == [adds[l]] + adds[l + 1..];
      }
    } else {
      assert rows == [];
    }
  }

  /** The columns of the block for a run of deletions followed by a run of additions. */
  lemma {:induction false} RunColumns(dels: seq<DiffLine>, adds: seq<DiffLine>, diff: (string, string) -> seq<Change>)
    requires forall m :: 0 <= m < |dels| ==> dels[m].kind == Del
    requires forall m :: 0 <= m < |adds| ==> adds[m].kind == Add
    ensures Lefts(Block(dels, adds, diff)) == Without(dels + adds, Add)
    ensures Rights(Block(dels, adds, diff)) == Without(dels + adds, Del)
  {
    BlockLefts(dels, adds, diff, 0);
    BlockRights(dels, adds, diff, 0);
    assert Block(dels, adds, diff)[0..] == Block(dels, adds, diff);
    WithoutAppend(dels, adds, Add);
    WithoutAppend(dels, adds, Del);
    WithoutUniform(dels, Del, Add);
    WithoutUniform(adds, Add, Del);
  }

  /** The left column of rows for `lines[i..k]` followed by rows for `lines[k..]`. */
  lemma {:induction false} LeftStep(lines: seq<DiffLine>, i: nat, k: nat, rows: seq<SplitDiffLine>, rest: seq<SplitDiffLine>)
    requires i <= k <= |lines|
    requires Lefts(rows) == Without(lines[i..k], Add)
    requires Lefts(rest) == Without(lines[k..], Add)
    ensures Lefts(rows + rest) == Without(lines[i..], Add)
  {
    LeftsAppend(rows, rest);
    assert lines[i..] == lines[i..k] + lines[k..];
    WithoutAppend(lines[i..k], lines[k..], Add);
  }

  /** The right column of rows for `lines[i..k]` followed by rows for `lines[k..]`. */
  lemma {:induction false} RightStep(lines: seq<DiffLine>, i: nat, k: nat, rows: seq<SplitDiffLine>, rest: seq<SplitDiffLine>)
    requires i <= k <= |lines|
    requires Rights(rows) == Without(lines[i..k], Del)
    requires Rights(rest) == Without(lines[k..], Del)
    ensures Rights(rows + rest) == Without(lines[i..], Del)
  {
    RightsAppend(rows, rest);
    assert lines[i..] == lines[i..k] + lines[k..];
    WithoutAppend(lines[i..k], lines[k..], Del);
  }

  /** The columns from a deleted line on, given the columns after its block. */
  lemma {:induction false} DelColumns(lines: seq<DiffLine>, i: nat, diff: (string, string) -> seq<Change>)
    requires i < |lines| && lines[i].kind == Del
    requires var e := RunEnd(lines, Add, RunEnd(lines, Del, i));
      Lefts(AlignFrom(lines, e, diff)) == Without(lines[e..], Add)
      && Rights(AlignFrom(lines, e, diff)) == Without(lines[e..], Del)
    ensures Lefts(AlignFrom(lines, i, diff)) == Without(lines[i..], Add)
    ensures Rights(AlignFrom(lines, i, diff)) == Without(lines[i..], Del)
  {
    var d := RunEnd(lines, Del, i);
    var e := RunEnd(lines, Add, d);
    RunEndKinds(lines, Del, i);
    RunEndKinds(lines, Add, d);
    RunColumns(lines[i..d], lines[d..e], diff);
    SliceJoin(lines, i, d, e);
    var rows := Block(lines[i..d], lines[d..e], diff);
    assert AlignFrom(lines, i, diff) == rows + AlignFrom(lines, e, diff);
    LeftStep(lines, i, e, rows, AlignFrom(lines, e, diff));
    RightStep(lines, i, e, rows, AlignFrom(lines, e, diff));
  }

  lemma SliceJoin(lines: seq<DiffLine>, i: nat, d: nat, e: nat)
    requires i <= d <= e <= |lines|
    ensures lines[i..d] + lines[d..e] == lines[i..e]
  {
  }

  /** The columns from a line that is not deleted on, given the columns after it. */
  lemma {:induction false} LineColumns(lines: seq<DiffLine>, i: nat, diff: (string, string) -> seq<Change>)
    requires i < |lines| && lines[i].kind != Del
    requires Lefts(AlignFrom(lines, i + 1, diff)) == Without(lines[i + 1..], Add)
    requires Rights(AlignFrom(lines, i + 1, diff)) == Without(lines[i + 1..], Del)
    ensures Lefts(AlignFrom(lines, i, diff)) == Without(lines[i..], Add)
    ensures Rights(AlignFrom(lines, i, diff)) == Without(lines[i..], Del)
  {
    var line := lines[i];
    var row := if line.kind == Add then SplitDiffLine(None, Some(line), None)
      else SplitDiffLine(Some(line), Some(line), None);
    assert lines[i..i + 1] == [line];
    LeftStep(lines, i, i + 1, [row], AlignFrom(lines, i + 1, diff));
    RightStep(lines, i, i + 1, [row], AlignFrom(lines, i + 1, diff));
  }

  /**
   * Every input line from `i` on is placed: the left column is those lines without the
   * additions, the right column those lines without the deletions, each in input order.
   */
  lemma {:induction false} AlignFromColumns(lines: seq<DiffLine>, i: nat, diff: (string, string) -> seq<Change>)
    requires i <= |lines|
    ensures Lefts(AlignFrom(lines, i, diff)) == Without(lines[i..], Add)
    ensures Rights(AlignFrom(lines, i, diff)) == Without(lines[i..], Del)
    decreases |lines| - i
  {
    if i == |lines| {
      assert lines[i..] == [];
    } else if lines[i].kind == Del {
      AlignFromColumns(lines, RunEnd(lines, Add, RunEnd(lines, Del, i)), diff);
      DelColumns(lines, i, diff);
    } else {
      AlignFromColumns(lines, i + 1, diff);
      LineColumns(lines, i, diff);
    }
  }

  /**
   * Split projection: reading the left sides of the rows gives the input without its
   * added lines, and reading the right sides gives it without its deleted lines.
   */
  lemma AlignColumns(lines: seq<DiffLine>)
    ensures Lefts(Align(lines)) == Without(lines, Add)
    ensures Rights(Align(lines)) == Without(lines, Del)
  {
    AlignFromColumns(lines, 0, WordDiff);
    assert lines[0..] == lines;
  }

  /**
   * The shape every row has: at least one side; no addition on the left and no deletion on
   * the right; a context or hunk line stands on both sides with no inline diff; and the
   * inline diff is there exactly for a deleted line paired with an added one, where it
   * is the differ's output for their contents.
   */
  predicate RowOk(row: SplitDiffLine, diff: (string, string) -> seq<Change>) {
    && (row.left.Some? || row.right.Some?)
    && (row.left.Some? ==> row.left.value.kind != Add)
    && (row.right.Some? ==> row.right.value.kind != Del)
    && (row.left.Some? && row.left.value.kind != Del ==> row.right == row.left && row.diffs.None?)
    && (row.right.Some? && row.right.value.kind != Add ==> row.left == row.right)
    && (row.left.Some? && row.left.value.kind == Del && row.right.Some? ==> row.right.value.kind == Add)
    && (row.diffs.Some? <==> row.left.Some? && row.right.Some? && row.left.value.kind == Del)
    && (row.diffs.Some? ==> row.diffs.value == diff(row.left.value.content, row.right.value.content))
  }

  predicate AllRowsOk(rows: seq<SplitDiffLine>, diff: (string, string) -> seq<Change>) {
    forall r :: 0 <= r < |rows| ==> RowOk(rows[r], diff)
  }

  lemma {:induction false} RowsOkAppend(a: seq<SplitDiffLine>, b: seq<SplitDiffLine>, diff: (string, string) -> seq<Change>)
    requires AllRowsOk(a, diff) && AllRowsOk(b, diff)
    ensures AllRowsOk(a + b, diff)
  {
    forall r | 0 <= r < |a + b|
      ensures RowOk((a + b)[r], diff)
    {
      if r < |a| {
        assert (a + b)[r] == a[r];
      } else {
        assert (a + b)[r] == b[r - |a|];
      }
    }
  }

  /** Every row of the block for a run of deletions and the run of additions after it is well shaped. */
  lemma {:induction false} BlockRowsOk(dels: seq<DiffLine>, adds: seq<DiffLine>, diff: (string, string) -> seq<Change>)
    requires forall m :: 0 <= m < |dels| ==> dels[m].kind == Del
    requires forall m :: 0 <= m < |adds| ==> adds[m].kind == Add
    ensures AllRowsOk(Block(dels, adds, diff), diff)
  {
    forall r | 0 <= r < |Block(dels, adds, diff)|
      ensures RowOk(Block(dels, adds, diff)[r], diff)
    {
      assert Block(dels, adds, diff)[r] == PairRow(dels, adds, r, diff);
    }
  }

  /** Every row from line `i` on is well shaped. */
  lemma {:induction false} AlignFromRowsOk(lines: seq<DiffLine>, i: nat, diff: (string, string) -> seq<Change>)
    requires i <= |lines|
    ensures AllRowsOk(AlignFrom(lines, i, diff), diff)
    decreases |lines| - i
  {
    if i < |lines| {
      var line := lines[i];
      if line.kind == Del {
        var d := RunEnd(lines, Del, i);
        var e := RunEnd(lines, Add, d);
        RunEndKinds(lines, Del, i);
        RunEndKinds(lines, Add, d);
        BlockRowsOk(lines[i..d], lines[d..e], diff);
        AlignFromRowsOk(lines, e, diff);
        RowsOkAppend(Block(lines[i..d], lines[d..e], diff), AlignFrom(lines, e, diff), diff);
      } else {
        var row := if line.kind == Add then SplitDiffLine(None, Some(line), None)
          else SplitDiffLine(Some(line), Some(line), None);
        assert RowOk(row, diff);
        AlignFromRowsOk(lines, i + 1, diff);
        RowsOkAppend([row], AlignFrom(lines, i + 1, diff), diff);
      }
    }
  }

  /**
   * Split block shape: every row of the view is well shaped, and where a row carries an
   * inline diff, that diff rebuilds the deleted line from its unadded spans and the added
   * line from its unremoved spans.
   */
  lemma AlignRows(lines: seq<DiffLine>)
    ensures forall r :: 0 <= r < |Align(lines)| ==>
      && RowOk(Align(lines)[r], WordDiff)
      && (Align(lines)[r].diffs.Some? ==>
        && OldText(Align(lines)[r].diffs.value) == Align(lines)[r].left.value.content
        && NewText(Align(lines)[r].diffs.value) == Align(lines)[r].right.value.content)
  {
    var rows := Align(lines);
    AlignFromRowsOk(lines, 0, WordDiff);
    forall r | 0 <= r < |rows|
      ensures RowOk(rows[r], WordDiff)
      ensures rows[r].diffs.Some? ==>
        && OldText(rows[r].diffs.value) == rows[r].left.value.content
        && NewText(rows[r].diffs.value) == rows[r].right.value.content
    {
      assert RowOk(rows[r], WordDiff);
      if rows[r].diffs.Some? {
        WordDiffRoundTrip(rows[r].left.value.content, rows[r].right.value.content);
      }
    }
  }

  // A line that never joins a block

  /** A run of `kind` is not lengthened by appending a line of another kind. */
  lemma {:induction false} RunEndSnoc(lines: seq<DiffLine>, c: DiffLine, kind: LineType, from: nat)
    requires from <= |lines| && c.kind != kind
    ensures RunEnd(lines + [c], kind, from) == RunEnd(lines, kind, from)
    decreases |lines| - from
  {
    if from < |lines| {
      assert (lines + [c])[from] == lines[from];
      if lines[from].kind == kind {
        RunEndSnoc(lines, c, kind, from + 1);
      }
    }
  }

  /** Appending such a line after the block that starts at a deleted line, given it is appended after the rest. */
  lemma {:induction false} SnocAfterBlock(lines: seq<DiffLine>, c: DiffLine, i: nat, diff: (string, string) -> seq<Change>)
    requires i < |lines| && lines[i].kind == Del && (c.kind == Context || c.kind == Hunk)
    requires var e := RunEnd(lines, Add, RunEnd(lines, Del, i));
      AlignFrom(lines + [c], e, diff) == AlignFrom(lines, e, diff) + [SplitDiffLine(Some(c), Some(c), None)]
    ensures AlignFrom(lines + [c], i, diff) == AlignFrom(lines, i, diff) + [SplitDiffLine(Some(c), Some(c), None)]
  {
    var all := lines + [c];
    var row := SplitDiffLine(Some(c), Some(c), None);
    var d := RunEnd(lines, Del, i);
    var e := RunEnd(lines, Add, d);
    assert all[i] == lines[i];
    RunEndSnoc(lines, c, Del, i);
    RunEndSnoc(lines, c, Add, d);
    assert all[i..d] == lines[i..d];
    assert all[d..e] == lines[d..e];
    var block := Block(lines[i..d], lines[d..e], diff);
    assert AlignFrom(all, i, diff) == block + (AlignFrom(lines, e, diff) + [row]);
    assert block + (AlignFrom(lines, e, diff) + [row]) == (block + AlignFrom(lines, e, diff)) + [row];
  }

  /**
   * A context line or a hunk header appended to the entries is appended to the view as
   * one more row showing it on both sides; the rows before it are unchanged.
   */
  lemma {:induction false} AlignFromSnoc(lines: seq<DiffLine>, c: DiffLine, i: nat, diff: (string, string) -> seq<Change>)
    requires i <= |lines| && (c.kind == Context || c.kind == Hunk)
    ensures AlignFrom(lines + [c], i, diff) == AlignFrom(lines, i, diff) + [SplitDiffLine(Some(c), Some(c), None)]
    decreases |lines| - i
  {
    var all := lines + [c];
    var row := SplitDiffLine(Some(c), Some(c), None);
    if i == |lines| {
      assert all[i] == c;
    } else if lines[i].kind == Del {
      AlignFromSnoc(lines, c, RunEnd(lines, Add, RunEnd(lines, Del, i)), diff);
      SnocAfterBlock(lines, c, i, diff);
    } else {
      var line := lines[i];
      assert all[i] == line;
      AlignFromSnoc(lines, c, i + 1, diff);
      var head := if line.kind == Add then SplitDiffLine(None, Some(line), None)
        else SplitDiffLine(Some(line), Some(line), None);
      assert AlignFrom(all, i, diff) == [head] + (AlignFrom(lines, i + 1, diff) + [row]);
      assert [head] + (AlignFrom(lines, i + 1, diff) + [row]) == ([head] + AlignFrom(lines, i + 1, diff)) + [row];
    }
  }
}
