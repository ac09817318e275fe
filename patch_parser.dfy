/**
 * `parseDiff` of src/DiffViewer.tsx: cuts a `git diff` patch into file sections and turns
 * the body of each section into numbered `DiffLine`s, the counts of added and deleted
 * lines and, through the split aligner, the rows of the two-column view.
 */
module PatchParser {
  import opened Wrappers
  import opened Strings
  import opened Types
  import opened SplitAligner
  import Utils

  const SectionMarker: string := "diff --git "
  const Newline: string := "\n"
  const HunkMarker: string := "@@"
  const UnknownFile: string := "Unknown File"

  // The hunk-header pattern `@@ -(\d+)(?:,\d+)? \+(\d+)(?:,\d+)? @@`, matched by hand

  predicate IsDigit(c: char) {
    '0' <= c <= '9'
  }

  /** The end of the run of decimal digits that starts at `i`. */
  function DigitRun(s: string, i: nat): (r: nat)
    requires i <= |s|
    ensures i <= r <= |s|
    decreases |s| - i
  {
    if i < |s| && IsDigit(s[i]) then DigitRun(s, i + 1) else i
  }

  /** `DigitRun` stops at the first character that is not a digit. */
  lemma {:induction false} DigitRunDigits(s: string, i: nat)
    requires i <= |s|
    ensures forall k :: i <= k < DigitRun(s, i) ==> IsDigit(s[k])
    ensures DigitRun(s, i) < |s| ==> !IsDigit(s[DigitRun(s, i)])
    decreases |s| - i
  {
    if i < |s| && IsDigit(s[i]) {
      DigitRunDigits(s, i + 1);
    }
  }

  /** The value of a decimal digit (0 for any other character, which is never read here). */
  function DigitValue(c: char): nat {
    if IsDigit(c) then c as int - '0' as int else 0
  }

  /** The value of a string of decimal digits, as `parseInt(d, 10)` reads it. */
  function DigitsValue(d: string): nat {
    if d == [] then 0 else DigitsValue(d[..|d| - 1]) * 10 + DigitValue(d[|d| - 1])
  }

  /** The decimal digits of `n`, as a line number is written in a hunk header. */
  function Decimal(n: nat): (d: string)
    ensures d != []
  {
    var last := ('0' as int + n % 10) as char;
    if n < 10 then [last] else Decimal(n / 10) + [last]
  }

  /** Reading back the digits of a number gives the number. */
  lemma {:induction false} DecimalValue(n: nat)
    ensures AllDigits(Decimal(n)) && DigitsValue(Decimal(n)) == n
  {
    var d := Decimal(n);
    if n < 10 {
      assert d[..0] == [];
    } else {
      DecimalValue(n / 10);
      assert d[..|d| - 1] == Decimal(n / 10);
    }
  }

  /**
   * After the digits of a start line, the optional `,count` group: it is taken when a comma
   * and at least one digit follow, and then runs to the end of those digits.
   */
  function SkipCount(s: string, q: nat): (r: nat)
    requires q <= |s|
    ensures q <= r <= |s|
  {
    if q + 1 < |s| && s[q] == ',' && IsDigit(s[q + 1]) then DigitRun(s, q + 1) else q
  }

  /**
   * The group `(\d+)(?:,\d+)?` read at index `a`: the start line it captures and the index
   * just after it; nothing when no digit is there. The digit run is taken whole, because a
   * shorter run would leave a digit where the pattern wants a comma or a space, so no other
   * way of matching exists.
   */
  function ReadRange(s: string, a: nat): Option<(nat, nat)>
    requires a <= |s|
  {
    var b := DigitRun(s, a);
    if b == a then None else Some((DigitsValue(s[a..b]), SkipCount(s, b)))
  }

  /** The pattern matched at index `p`: the old and new start lines it captures. */
  function HunkMatchAt(s: string, p: nat): Option<(nat, nat)>
    requires p <= |s|
  {
    if !OccursAt(s, "@@ -", p) then None
    else match ReadRange(s, p + 4)
      case None => None
      case Some(oldRange) =>
        if !OccursAt(s, " +", oldRange.1) then None
        else match ReadRange(s, oldRange.1 + 2)
          case None => None
          case Some(newRange) =>
            if !OccursAt(s, " @@", newRange.1) then None else Some((oldRange.0, newRange.0))
  }

  /** The leftmost match at or after index `p`. */
  function HunkMatchFrom(s: string, p: nat): Option<(nat, nat)>
    requires p <= |s|
    decreases |s| - p
  {
    match HunkMatchAt(s, p)
    case Some(m) => Some(m)
    case None => if p == |s| then None else HunkMatchFrom(s, p + 1)
  }

  /** `line.match(/@@ -(\d+)(?:,\d+)? \+(\d+)(?:,\d+)? @@/)`, with both captures read as numbers. */
  function HunkHeader(line: string): Option<(nat, nat)> {
    HunkMatchFrom(line, 0)
  }

  // The file name

  /**
   * `lines[0].match(/b\/(.*)/)`: the text after the first `b/` of the header line up to
   * the end of the line, trimmed; `"Unknown File"` when the line has no `b/`.
   */
  function FileName(header: string): string {
    match IndexOf(header, "b/")
    case None => UnknownFile
    case Some(k) => Trim(UntilLineEnd(header[k + 2..]))
  }

  // The line loop

  /** The state the line loop of `parseDiff` keeps for one section. */
  datatype Scan = Scan(
    oldLine: nat,
    newLine: nat,
    additions: nat,
    deletions: nat,
    inHunk: bool,
    diffLines: seq<DiffLine>)

  const Start: Scan := Scan(0, 0, 0, 0, false, [])

  /** What one line does to the state. */
  function Step(st: Scan, line: string): Scan {
    if StartsWith(line, HunkMarker) then
      var header := HunkHeader(line);
      st.(
        oldLine := if header.Some? then header.value.0 else st.oldLine,
        newLine := if header.Some? then header.value.1 else st.newLine,
        inHunk := true,
        diffLines := st.diffLines + [DiffLine(Hunk, line, None, None)])
    else if !st.inHunk then st
    else if StartsWith(line, "+") then
      st.(
        additions := st.additions + 1,
        newLine := st.newLine + 1,
        diffLines := st.diffLines + [DiffLine(Add, line[1..], None, Some(st.newLine))])
    else if StartsWith(line, "-") then
      st.(
        deletions := st.deletions + 1,
        oldLine := st.oldLine + 1,
        diffLines := st.diffLines + [DiffLine(Del, line[1..], Some(st.oldLine), None)])
    else
      st.(
        oldLine := st.oldLine + 1,
        newLine := st.newLine + 1,
        diffLines := st.diffLines + [DiffLine(Context, if |line| > 0 then line[1..] else [], Some(st.oldLine), Some(st.newLine))])
  }

  /** The state after the first `n` lines. */
  function Run(lines: seq<string>, n: nat): Scan
    requires n <= |lines|
  {
    if n == 0 then Start else Step(Run(lines, n - 1), lines[n - 1])
  }

  /** The line loop of `parseDiff` over the lines of one section. */
  method ScanLines(lines: seq<string>) returns (st: Scan)
    ensures st == Run(lines, |lines|)
  {
    var oldLineCounter, newLineCounter, additions, deletions := 0, 0, 0, 0;
    var diffLines: seq<DiffLine> := [];
    var inHunk := false;
    for i := 0 to |lines|
      invariant Scan(oldLineCounter, newLineCounter, additions, deletions, inHunk, diffLines) == Run(lines, i)
    {
      var line := lines[i];
      if StartsWith(line, HunkMarker) {
        inHunk := true;
        var hunkMatch := HunkHeader(line);
        if hunkMatch.Some? {
          oldLineCounter := hunkMatch.value.0;
          newLineCounter := hunkMatch.value.1;
        }
        diffLines := diffLines + [DiffLine(Hunk, line, None, None)];
        continue;
      }
      if !inHunk {
        continue;
      }
      if StartsWith(line, "+") {
        additions := additions + 1;
        diffLines := diffLines + [DiffLine(Add, line[1..], None, Some(newLineCounter))];
        newLineCounter := newLineCounter + 1;
      } else if StartsWith(line, "-") {
        deletions := deletions + 1;
        diffLines := diffLines + [DiffLine(Del, line[1..], Some(oldLineCounter), None)];
        oldLineCounter := oldLineCounter + 1;
      } else {
        var content := if |line| > 0 then line[1..] else [];
        diffLines := diffLines + [DiffLine(Context, content, Some(oldLineCounter), Some(newLineCounter))];
        oldLineCounter := oldLineCounter + 1;
        newLineCounter := newLineCounter + 1;
      }
    }
    st := Scan(oldLineCounter, newLineCounter, additions, deletions, inHunk, diffLines);
  }

  // Sections and files

  /** The file one section of the patch yields, if any. */
  function SectionFile(fileDiff: string): Option<ParsedFile> {
    if Trim(fileDiff) == [] then None
    else
      var lines := Split(fileDiff, Newline);
      var st := Run(lines, |lines|);
      if |st.diffLines| > 0
      then Some(ParsedFile(FileName(lines[0]), Align(st.diffLines), st.additions, st.deletions))
      else None
  }

  /** The files the sections yield, in order. */
  function Files(sections: seq<string>): seq<ParsedFile> {
    if sections == [] then []
    else
      var init := Files(sections[..|sections| - 1]);
      match SectionFile(sections[|sections| - 1])
      case None => init
      case Some(f) => init + [f]
  }

  /** The specification of `parseDiff`. */
  function Parse(patch: string): seq<ParsedFile> {
    if patch == [] then [] else Files(Split(patch, SectionMarker))
  }

  lemma FilesNext(sections: seq<string>, f: nat)
    requires f < |sections|
    ensures Files(sections[..f + 1]) == match SectionFile(sections[f])
      case None => Files(sections[..f])
      case Some(file) => Files(sections[..f]) + [file]
  {
    assert sections[..f + 1][..f] == sections[..f];
  }

  /** `parseDiff(patch)`. */
  method ParseDiff(patch: string) returns (parsedFiles: seq<ParsedFile>)
    ensures parsedFiles == Parse(patch)
  {
    if patch == [] {
      return [];
    }
    var fileDiffs := Split(patch, SectionMarker);
    parsedFiles := [];
    for f := 0 to |fileDiffs|
      invariant parsedFiles == Files(fileDiffs[..f])
    {
      var fileDiff := fileDiffs[f];
      FilesNext(fileDiffs, f);
      if Trim(fileDiff) == [] {
        continue;
      }
      var lines := Split(fileDiff, Newline);
      var fileName := FileName(lines[0]);
      var st := ScanLines(lines);
      if |st.diffLines| > 0 {
        var splitLines := GenerateSplitLines(st.diffLines);
        parsedFiles := parsedFiles + [ParsedFile(fileName, splitLines, st.additions, st.deletions)];
      }
    }
    assert fileDiffs[..|fileDiffs|] == fileDiffs;
  }

  // Properties of the line loop

  /** The kind a body line gets, from its first characters alone. */
  function KindOf(line: string): LineType {
    if StartsWith(line, HunkMarker) then Hunk
    else if StartsWith(line, "+") then Add
    else if StartsWith(line, "-") then Del
    else Context
  }

  /** The content a body line keeps: a hunk header whole, any other line without its marker column. */
  function ContentOf(line: string): string {
    if StartsWith(line, HunkMarker) then line
    else if |line| > 0 then line[1..]
    else []
  }

  /** Lines of these kinds carry an old line number and advance the old counter. */
  predicate OnOldSide(kind: LineType) {
    kind == Del || kind == Context
  }

  /** Lines of these kinds carry a new line number and advance the new counter. */
  predicate OnNewSide(kind: LineType) {
    kind == Add || kind == Context
  }

  /** How many of `ls` advance the old counter. */
  function OldCount(ls: seq<string>): nat {
    if ls == [] then 0
    else OldCount(ls[..|ls| - 1]) + (if OnOldSide(KindOf(ls[|ls| - 1])) then 1 else 0)
  }

  /** How many of `ls` advance the new counter. */
  function NewCount(ls: seq<string>): nat {
    if ls == [] then 0
    else NewCount(ls[..|ls| - 1]) + (if OnNewSide(KindOf(ls[|ls| - 1])) then 1 else 0)
  }

  /** How many of `dl` are of kind `kind`. */
  function CountKind(dl: seq<DiffLine>, kind: LineType): nat {
    if dl == [] then 0
    else CountKind(dl[..|dl| - 1], kind) + (if dl[|dl| - 1].kind == kind then 1 else 0)
  }

  lemma CountKindSnoc(dl: seq<DiffLine>, d: DiffLine, kind: LineType)
    ensures CountKind(dl + [d], kind) == CountKind(dl, kind) + (if d.kind == kind then 1 else 0)
  {
    assert (dl + [d])[..|dl|] == dl;
  }

  /**
   * One line inside a hunk, or a hunk header anywhere: exactly one `DiffLine` is appended,
   * with the line's kind and content; it takes the old counter when it is on the old side
   * and the new counter when it is on the new side; the tally of its kind goes up.
   */
  lemma StepEntry(st: Scan, line: string)
    requires st.inHunk || StartsWith(line, HunkMarker)
    ensures var kind := KindOf(line);
      var next := Step(st, line);
      && next.inHunk
      && next.diffLines == st.diffLines + [DiffLine(kind, ContentOf(line),
           if OnOldSide(kind) then Some(st.oldLine) else None,
           if OnNewSide(kind) then Some(st.newLine) else None)]
      && next.additions == st.additions + (if kind == Add then 1 else 0)
      && next.deletions == st.deletions + (if kind == Del then 1 else 0)
  {
  }

  /**
   * The counters after one line inside a hunk, or a hunk header anywhere: a header sets
   * them to the start lines it declares, or keeps them when it does not match; any other
   * line advances the counters of its sides by one.
   */
  lemma StepCounters(st: Scan, line: string)
    requires st.inHunk || StartsWith(line, HunkMarker)
    ensures var kind := KindOf(line);
      var next := Step(st, line);
      && next.inHunk
      && (kind == Hunk ==> match HunkHeader(line)
           case Some(m) => next.oldLine == m.0 && next.newLine == m.1
           case None => next.oldLine == st.oldLine && next.newLine == st.newLine)
      && (kind != Hunk ==> next.oldLine == st.oldLine + (if OnOldSide(kind) then 1 else 0))
      && (kind != Hunk ==> next.newLine == st.newLine + (if OnNewSide(kind) then 1 else 0))
  {
  }

  /** Lines before the first hunk header are dropped: the state is still the initial one. */
  lemma {:induction false} PreambleSkipped(lines: seq<string>, n: nat)
    requires n <= |lines|
    requires forall t :: 0 <= t < n ==> !StartsWith(lines[t], HunkMarker)
    ensures Run(lines, n) == Start
  {
    if n > 0 {
      PreambleSkipped(lines, n - 1);
    }
  }

  /** The tallies count the added and the deleted entries. */
  lemma {:induction false} RunTallies(lines: seq<string>, n: nat)
    requires n <= |lines|
    ensures Run(lines, n).additions == CountKind(Run(lines, n).diffLines, Add)
    ensures Run(lines, n).deletions == CountKind(Run(lines, n).diffLines, Del)
  {
    if n > 0 {
      var prev := Run(lines, n - 1);
      RunTallies(lines, n - 1);
      if prev.inHunk || StartsWith(lines[n - 1], HunkMarker) {
        StepEntry(prev, lines[n - 1]);
        var d := Run(lines, n).diffLines[|prev.diffLines|];
        CountKindSnoc(prev.diffLines, d, Add);
        CountKindSnoc(prev.diffLines, d, Del);
      }
    }
  }

  /**
   * One `DiffLine` per body line: from the first hunk header at `f` on, line `t` yields
   * entry `t - f`, with the line's kind and content.
   */
  lemma {:induction false} BodyLines(lines: seq<string>, f: nat, n: nat)
    requires f < n <= |lines|
    requires StartsWith(lines[f], HunkMarker)
    requires forall t :: 0 <= t < f ==> !StartsWith(lines[t], HunkMarker)
    ensures Run(lines, n).inHunk
    ensures |Run(lines, n).diffLines| == n - f
    ensures forall t :: f <= t < n ==>
      Run(lines, n).diffLines[t - f].kind == KindOf(lines[t])
      && Run(lines, n).diffLines[t - f].content == ContentOf(lines[t])
  {
    var prev := Run(lines, n - 1);
    if n - 1 == f {
      PreambleSkipped(lines, f);
    } else {
      BodyLines(lines, f, n - 1);
    }
    StepEntry(prev, lines[n - 1]);
    var d := Run(lines, n).diffLines[|prev.diffLines|];
    EntriesSnoc(prev.diffLines, d, lines, f, n);
  }

  /** One more entry, for line `n - 1`, keeps entry `t - f` matched with line `t`. */
  lemma EntriesSnoc(dl: seq<DiffLine>, d: DiffLine, lines: seq<string>, f: nat, n: nat)
    requires f < n <= |lines| && |dl| == n - 1 - f
    requires forall t :: f <= t < n - 1 ==>
      dl[t - f].kind == KindOf(lines[t]) && dl[t - f].content == ContentOf(lines[t])
    requires d.kind == KindOf(lines[n - 1]) && d.content == ContentOf(lines[n - 1])
    ensures forall t :: f <= t < n ==>
      (dl + [d])[t - f].kind == KindOf(lines[t]) && (dl + [d])[t - f].content == ContentOf(lines[t])
  {
    forall t | f <= t < n
      ensures (dl + [d])[t - f].kind == KindOf(lines[t]) && (dl + [d])[t - f].content == ContentOf(lines[t])
    {
      if t < n - 1 {
        assert (dl + [d])[t - f] == dl[t - f];
      }
    }
  }

  /**
   * The old counter right after the hunk header at `h`: the old start line it declares, or
   * the counter's previous value when the header does not match (0 before any header).
   */
  function HeaderOld(lines: seq<string>, h: nat): nat
    requires h < |lines|
  {
    match HunkHeader(lines[h])
    case Some(m) => m.0
    case None => Run(lines, h).oldLine
  }

  /** The new counter right after the hunk header at `h`. */
  function HeaderNew(lines: seq<string>, h: nat): nat
    requires h < |lines|
  {
    match HunkHeader(lines[h])
    case Some(m) => m.1
    case None => Run(lines, h).newLine
  }

  /**
   * Within the hunk that starts at `h`, the counters have advanced from the header's values
   * by the number of lines on their side.
   */
  lemma HunkCounters(lines: seq<string>, h: nat, n: nat)
    requires h < n <= |lines|
    requires StartsWith(lines[h], HunkMarker)
    requires forall t :: h < t < n ==> !StartsWith(lines[t], HunkMarker)
    ensures Run(lines, n).inHunk
    ensures Run(lines, n).oldLine == HeaderOld(lines, h) + OldCount(lines[h + 1..n])
    ensures Run(lines, n).newLine == HeaderNew(lines, h) + NewCount(lines[h + 1..n])
  {
    HeaderCounters(lines, h);
    CountersFrom(lines, h, n);
  }

  /** The counters advance from their values right after the header at `h`. */
  lemma {:induction false} CountersFrom(lines: seq<string>, h: nat, n: nat)
    requires h < n <= |lines| && Run(lines, h + 1).inHunk
    requires forall t :: h < t < n ==> !StartsWith(lines[t], HunkMarker)
    ensures Run(lines, n).inHunk
    ensures Run(lines, n).oldLine == Run(lines, h + 1).oldLine + OldCount(lines[h + 1..n])
    ensures Run(lines, n).newLine == Run(lines, h + 1).newLine + NewCount(lines[h + 1..n])
  {
    if n - 1 == h {
      assert lines[h + 1..n] == [];
    } else {
      CountersFrom(lines, h, n - 1);
      CountersStep(lines, h + 1, n, Run(lines, h + 1).oldLine, Run(lines, h + 1).newLine);
    }
  }

  /**
   * One more body line inside a hunk: counters that stood at `o` and `m` plus the counts of
   * lines `a` to `n - 1` now stand at `o` and `m` plus the counts of lines `a` to `n`.
   */
  lemma CountersStep(lines: seq<string>, a: nat, n: nat, o: int, m: int)
    requires a < n <= |lines| && Run(lines, n - 1).inHunk && !StartsWith(lines[n - 1], HunkMarker)
    requires Run(lines, n - 1).oldLine == o + OldCount(lines[a..n - 1])
    requires Run(lines, n - 1).newLine == m + NewCount(lines[a..n - 1])
    ensures Run(lines, n).inHunk
    ensures Run(lines, n).oldLine == o + OldCount(lines[a..n])
    ensures Run(lines, n).newLine == m + NewCount(lines[a..n])
  {
    assert Run(lines, n) == Step(Run(lines, n - 1), lines[n - 1]);
    CountsSnoc(lines, a, n);
  }

  /** Right after a hunk header the counters are the ones the header gives. */
  lemma HeaderCounters(lines: seq<string>, h: nat)
    requires h < |lines| && StartsWith(lines[h], HunkMarker)
    ensures Run(lines, h + 1).inHunk
    ensures Run(lines, h + 1).oldLine == HeaderOld(lines, h)
    ensures Run(lines, h + 1).newLine == HeaderNew(lines, h)
  {
    var prev := Run(lines, h);
    assert Run(lines, h + 1) == Step(prev, lines[h]);
    StepCounters(prev, lines[h]);
  }

  /** The lines `a` to `n` of the hunk are the lines `a` to `n - 1` and then line `n - 1`. */
  lemma CountsSnoc(lines: seq<string>, a: nat, n: nat)
    requires a < n <= |lines|
    ensures OldCount(lines[a..n]) == OldCount(lines[a..n - 1]) + (if OnOldSide(KindOf(lines[n - 1])) then 1 else 0)
    ensures NewCount(lines[a..n]) == NewCount(lines[a..n - 1]) + (if OnNewSide(KindOf(lines[n - 1])) then 1 else 0)
  {
    var ls := lines[a..n];
    assert ls[..|ls| - 1] == lines[a..n - 1];
    assert ls[|ls| - 1] == lines[n - 1];
  }

  /**
   * Line numbering: line `t` of the hunk that starts at `h` yields one entry; it carries
   * the header's old start plus the number of earlier lines of the hunk on the old side
   * when it is itself on the old side, and likewise for the new side.
   */
  lemma LineNumbers(lines: seq<string>, h: nat, t: nat)
    requires h < t < |lines|
    requires StartsWith(lines[h], HunkMarker)
    requires forall u :: h < u <= t ==> !StartsWith(lines[u], HunkMarker)
    ensures var kind := KindOf(lines[t]);
      Run(lines, t + 1).diffLines == Run(lines, t).diffLines + [DiffLine(kind, ContentOf(lines[t]),
        if OnOldSide(kind) then Some(HeaderOld(lines, h) + OldCount(lines[h + 1..t])) else None,
        if OnNewSide(kind) then Some(HeaderNew(lines, h) + NewCount(lines[h + 1..t])) else None)]
  {
    var st := Run(lines, t);
    HunkCounters(lines, h, t);
    StepEntry(st, lines[t]);
    assert Run(lines, t + 1) == Step(st, lines[t]);
  }

  // Properties of the sections

  /** The first hunk header among `lines`, when there is one. */
  lemma {:induction false} FirstHeader(lines: seq<string>, n: nat) returns (f: nat)
    requires n <= |lines|
    requires exists t :: 0 <= t < n && StartsWith(lines[t], HunkMarker)
    ensures f < n && StartsWith(lines[f], HunkMarker)
    ensures forall t :: 0 <= t < f ==> !StartsWith(lines[t], HunkMarker)
  {
    if exists t :: 0 <= t < n - 1 && StartsWith(lines[t], HunkMarker) {
      f := FirstHeader(lines, n - 1);
    } else {
      f := n - 1;
    }
  }

  /** Some line starts with `@@`. */
  predicate HasHeader(lines: seq<string>) {
    exists t :: 0 <= t < |lines| && StartsWith(lines[t], HunkMarker)
  }

  /** The line loop produces entries exactly when some line starts with `@@`. */
  lemma RunYieldsLines(lines: seq<string>)
    ensures |Run(lines, |lines|).diffLines| > 0 <==> HasHeader(lines)
  {
    if exists t :: 0 <= t < |lines| && StartsWith(lines[t], HunkMarker) {
      var f := FirstHeader(lines, |lines|);
      BodyLines(lines, f, |lines|);
    } else {
      PreambleSkipped(lines, |lines|);
    }
  }

  /**
   * Which sections become files: a section yields a file exactly when it is not blank and
   * one of its lines starts with `@@`.
   */
  lemma SectionYieldsFile(fileDiff: string)
    ensures SectionFile(fileDiff).Some? <==> Trim(fileDiff) != [] && HasHeader(Split(fileDiff, Newline))
  {
    RunYieldsLines(Split(fileDiff, Newline));
  }

  lemma {:induction false} CountKindAppend(a: seq<DiffLine>, b: seq<DiffLine>, kind: LineType)
    ensures CountKind(a + b, kind) == CountKind(a, kind) + CountKind(b, kind)
    decreases |b|
  {
    if b == [] {
      assert a + b == a;
    } else {
      var init := b[..|b| - 1];
      CountKindAppend(a, init, kind);
      assert a + b == (a + init) + [b[|b| - 1]];
      CountKindSnoc(a + init, b[|b| - 1], kind);
    }
  }

  /** Taking out the lines of another kind does not change how many there are of `kind`. */
  lemma {:induction false} CountWithout(dl: seq<DiffLine>, kind: LineType, other: LineType)
    requires kind != other
    ensures CountKind(Without(dl, other), kind) == CountKind(dl, kind)
    decreases |dl|
  {
    if dl != [] {
      CountWithout(dl[1..], kind, other);
      assert dl == [dl[0]] + dl[1..];
      CountKindCons(dl[0], dl[1..], kind);
      if dl[0].kind == other {
        assert Without(dl, other) == Without(dl[1..], other);
      } else {
        assert Without(dl, other) == [dl[0]] + Without(dl[1..], other);
        CountKindCons(dl[0], Without(dl[1..], other), kind);
      }
    }
  }

  lemma CountKindCons(d: DiffLine, rest: seq<DiffLine>, kind: LineType)
    ensures CountKind([d] + rest, kind) == (if d.kind == kind then 1 else 0) + CountKind(rest, kind)
  {
    CountKindAppend([d], rest, kind);
    assert [d][..0] == [];
  }

  /**
   * Counts: a file's tally of additions is the number of added lines in its right column,
   * and its tally of deletions the number of deleted lines in its left column.
   */
  lemma FileCounts(fileDiff: string)
    requires SectionFile(fileDiff).Some?
    ensures var file := SectionFile(fileDiff).value;
      && file.additions == CountKind(Rights(file.splitLines), Add)
      && file.deletions == CountKind(Lefts(file.splitLines), Del)
  {
    var lines := Split(fileDiff, Newline);
    var st := Run(lines, |lines|);
    RunTallies(lines, |lines|);
    AlignColumns(st.diffLines);
    CountWithout(st.diffLines, Add, Del);
    CountWithout(st.diffLines, Del, Add);
  }

  // A trailing newline

  /** The state after the first `n` lines does not depend on the lines after them. */
  lemma {:induction false} RunPrefix(lines: seq<string>, more: seq<string>, n: nat)
    requires n <= |lines|
    ensures Run(lines + more, n) == Run(lines, n)
  {
    if n > 0 {
      RunPrefix(lines, more, n - 1);
      assert (lines + more)[n - 1] == lines[n - 1];
    }
  }

  /** Inside a hunk, an empty line is read as a context line with empty content. */
  lemma StepEmpty(st: Scan)
    requires st.inHunk
    ensures Step(st, []) == st.(
      oldLine := st.oldLine + 1,
      newLine := st.newLine + 1,
      diffLines := st.diffLines + [DiffLine(Context, [], Some(st.oldLine), Some(st.newLine))])
  {
    assert !StartsWith([], HunkMarker) && !StartsWith([], "+") && !StartsWith([], "-");
  }

  /** Inside a hunk, an empty last line is read as a context line with empty content. */
  lemma EmptyLastLine(lines: seq<string>)
    requires HasHeader(lines)
    ensures var st := Run(lines, |lines|);
      Run(lines + [[]], |lines| + 1) == st.(
        oldLine := st.oldLine + 1,
        newLine := st.newLine + 1,
        diffLines := st.diffLines + [DiffLine(Context, [], Some(st.oldLine), Some(st.newLine))])
  {
    var more := lines + [[]];
    var f := FirstHeader(lines, |lines|);
    InHunkAfter(lines, f, |lines|);
    RunPrefix(lines, [[]], |lines|);
    assert more[|lines|] == [];
    assert Run(more, |lines| + 1) == Step(Run(more, |lines|), []);
    StepEmpty(Run(lines, |lines|));
  }

  /** Once a hunk header has been read, the scan stays inside a hunk. */
  lemma {:induction false} InHunkAfter(lines: seq<string>, f: nat, n: nat)
    requires f < n <= |lines| && StartsWith(lines[f], HunkMarker)
    ensures Run(lines, n).inHunk
  {
    if n - 1 == f {
      HeaderCounters(lines, f);
    } else {
      InHunkAfter(lines, f, n - 1);
    }
  }

  /** A section that ends in a newline splits into its lines and one more, empty, line. */
  lemma SplitTrailing(section: string)
    ensures Split(section + Newline, Newline) == Split(section, Newline) + [[]]
  {
    assert Newline == ['\n'];
    SplitSnocSeparator(section, '\n');
  }

  lemma TrimTrailing(section: string)
    requires Trim(section) != []
    ensures Trim(section + Newline) != []
  {
    var k :| 0 <= k < |section| && !IsSpace(section[k]);
    assert (section + Newline)[k] == section[k];
  }

  /** The file a section yields, from its lines and the state the line loop ends in. */
  lemma SectionFileOf(section: string, lines: seq<string>, st: Scan)
    requires Trim(section) != [] && lines == Split(section, Newline)
    requires st == Run(lines, |lines|) && |st.diffLines| > 0
    ensures SectionFile(section) == Some(ParsedFile(FileName(lines[0]), Align(st.diffLines), st.additions, st.deletions))
  {
  }

  /** A section ending in a newline has one more, empty, line, which the line loop reads as context. */
  lemma TrailingLines(section: string, lines: seq<string>, st: Scan)
    requires Trim(section) != [] && lines == Split(section, Newline) && HasHeader(lines)
    requires st == Run(lines, |lines|)
    ensures Trim(section + Newline) != [] && Split(section + Newline, Newline) == lines + [[]]
    ensures Run(lines + [[]], |lines| + 1) == st.(
      oldLine := st.oldLine + 1,
      newLine := st.newLine + 1,
      diffLines := st.diffLines + [DiffLine(Context, [], Some(st.oldLine), Some(st.newLine))])
  {
    SplitTrailing(section);
    TrimTrailing(section);
    EmptyLastLine(lines);
  }

  /**
   * A patch section that ends in a newline has one more line, the empty one, and inside a
   * hunk that line is read as a context line with empty content: it takes the next number
   * on both sides and becomes one more row of the view showing it on both sides; the file
   * name and the tallies are unchanged.
   */
  lemma TrailingNewline(section: string)
    requires SectionFile(section).Some?
    ensures var lines := Split(section, Newline);
      var st := Run(lines, |lines|);
      var entry := DiffLine(Context, [], Some(st.oldLine), Some(st.newLine));
      var file := SectionFile(section).value;
      SectionFile(section + Newline) == Some(file.(
        splitLines := file.splitLines + [SplitDiffLine(Some(entry), Some(entry), None)]))
  {
    var lines := Split(section, Newline);
    var st := Run(lines, |lines|);
    var entry := DiffLine(Context, [], Some(st.oldLine), Some(st.newLine));
    SectionYieldsFile(section);
    SectionFileOf(section, lines, st);
    TrailingLines(section, lines, st);
    var more := lines + [[]];
    assert |more| == |lines| + 1 && more[0] == lines[0];
    SectionFileOf(section + Newline, more, Run(more, |more|));
    AlignFromSnoc(st.diffLines, entry, 0, Utils.WordDiff);
  }

  // The file name of a git header

  /** A header line without `b/` gives the placeholder name. */
  lemma FileNameUnknown(header: string)
    requires Free(header, "b/")
    ensures FileName(header) == UnknownFile
  {
  }

  /** The name is read after the first `b/` of the header line. */
  lemma FileNameAt(header: string, i: nat)
    requires OccursAt(header, "b/", i)
    requires forall j: nat :: j < i ==> !OccursAt(header, "b/", j)
    ensures FileName(header) == Trim(UntilLineEnd(header[i + 2..]))
  {
    IndexOfAt(header, "b/", i);
  }

  /** In `a/<path> b/<path>`, the first `b/` is the one before the new path when the path holds none. */
  lemma {:induction false} GitHeaderFirstB(path: string)
    requires Free(path, "b/")
    ensures OccursAt("a/" + path + " b/" + path, "b/", |path| + 3)
    ensures forall j: nat :: j < |path| + 3 ==> !OccursAt("a/" + path + " b/" + path, "b/", j)
  {
    var header := "a/" + path + " b/" + path;
    var i := |path| + 3;
    forall j: nat | j < i
      ensures !OccursAt(header, "b/", j)
    {
      if 2 <= j < |path| + 1 {
        assert header[j..j + 2] == path[j - 2..j];
        assert !OccursAt(path, "b/", j - 2);
      } else {
        assert header[j..j + 2] == [header[j], header[j + 1]];
        assert header[j] == (if j == 0 then 'a' else if j == 1 then '/' else ' ')
          || header[j + 1] == ' ';
      }
    }
    assert header[i..i + 2] == "b/";
  }

  /**
   * The section of a `diff --git a/<path> b/<path>` header starts with `a/<path> b/<path>`;
   * when the path holds no `b/`, no line break and no whitespace at either end, the name
   * read from it is the path.
   */
  lemma GitHeaderName(path: string)
    requires Free(path, "b/")
    requires forall k :: 0 <= k < |path| ==> !IsLineTerminator(path[k])
    requires path != [] ==> !IsSpace(path[0]) && !IsSpace(path[|path| - 1])
    ensures FileName("a/" + path + " b/" + path) == path
  {
    var header := "a/" + path + " b/" + path;
    GitHeaderFirstB(path);
    FileNameAt(header, |path| + 3);
    assert header[|path| + 5..] == path;
    UntilLineEndWhole(path);
    TrimUnpadded(path);
  }

  /** In `a/<oldPath> b/<newPath>`, a `b/` inside the old path comes first. */
  lemma {:induction false} OldPathFirstB(oldPath: string, newPath: string, k: nat)
    requires OccursAt(oldPath, "b/", k)
    requires forall j: nat :: j < k ==> !OccursAt(oldPath, "b/", j)
    ensures OccursAt("a/" + oldPath + " b/" + newPath, "b/", k + 2)
    ensures forall j: nat :: j < k + 2 ==> !OccursAt("a/" + oldPath + " b/" + newPath, "b/", j)
  {
    var header := "a/" + oldPath + " b/" + newPath;
    forall j: nat | j < k + 2
      ensures !OccursAt(header, "b/", j)
    {
      if j >= 2 {
        assert header[j..j + 2] == oldPath[j - 2..j];
        assert !OccursAt(oldPath, "b/", j - 2);
      } else {
        assert header[j..j + 2] == if j == 0 then "a/" else ['/', header[2]];
      }
    }
    assert header[k + 2..k + 4] == oldPath[k..k + 2];
  }

  /**
   * The name is read from the first `b/` of the header line, wherever it is: when the old
   * path holds `b/`, as `lib/x.ts` does, the name is taken from inside the old path, so
   * `a/lib/x.ts b/lib/x.ts` is named `x.ts b/lib/x.ts`.
   */
  lemma FileNameFirstB(oldPath: string, newPath: string, k: nat)
    requires OccursAt(oldPath, "b/", k)
    requires forall j: nat :: j < k ==> !OccursAt(oldPath, "b/", j)
    ensures FileName("a/" + oldPath + " b/" + newPath) == Trim(UntilLineEnd(oldPath[k + 2..] + " b/" + newPath))
  {
    var header := "a/" + oldPath + " b/" + newPath;
    OldPathFirstB(oldPath, newPath, k);
    FileNameAt(header, k + 2);
    assert header[k + 4..] == oldPath[k + 2..] + " b/" + newPath;
  }

  // The hunk header

  /** A run of digits ended by a non-digit, or by the end of the string, is taken whole. */
  lemma {:induction false} DigitRunExact(s: string, i: nat, j: nat)
    requires i <= j <= |s|
    requires forall k :: i <= k < j ==> IsDigit(s[k])
    requires j < |s| ==> !IsDigit(s[j])
    ensures DigitRun(s, i) == j
    decreases j - i
  {
    if i < j {
      DigitRunExact(s, i + 1, j);
    }
  }

  predicate AllDigits(d: string) {
    forall k :: 0 <= k < |d| ==> IsDigit(d[k])
  }

  /** A line range of a hunk header: the start line, then `,count` unless the count is left out. */
  function Range(start: string, count: string): string {
    if count == [] then start else start + "," + count
  }

  /**
   * A range of the header at index `i`, followed by a space: the digit run is the start
   * line and the optional group is the count.
   */
  lemma RangeRuns(s: string, i: nat, start: string, count: string)
    requires start != [] && AllDigits(start) && AllDigits(count)
    requires i + |Range(start, count)| < |s| && s[i..i + |Range(start, count)|] == Range(start, count)
    requires s[i + |Range(start, count)|] == ' '
    ensures DigitRun(s, i) == i + |start| && s[i..i + |start|] == start
    ensures SkipCount(s, i + |start|) == i + |Range(start, count)|
  {
    var r := Range(start, count);
    var e := i + |start|;
    forall k | i <= k < e
      ensures IsDigit(s[k])
    {
      assert s[k] == r[k - i];
    }
    assert if count == [] then s[e] == ' ' else s[e] == r[|start|];
    DigitRunExact(s, i, e);
    assert s[i..e] == r[..|start|];
    if count != [] {
      var f := e + 1 + |count|;
      assert s[e] == r[|start|];
      assert s[e + 1] == r[|start| + 1];
      forall k | e + 1 <= k < f
        ensures IsDigit(s[k])
      {
        assert s[k] == r[k - i];
      }
      DigitRunExact(s, e + 1, f);
    }
  }

  /** The range group read at index `i` captures the start line and ends where the range does. */
  lemma ReadRangeAt(s: string, i: nat, start: string, count: string)
    requires start != [] && AllDigits(start) && AllDigits(count)
    requires i + |Range(start, count)| < |s| && s[i..i + |Range(start, count)|] == Range(start, count)
    requires s[i + |Range(start, count)|] == ' '
    ensures ReadRange(s, i) == Some((DigitsValue(start), i + |Range(start, count)|))
  {
    RangeRuns(s, i, start, count);
    ReadRangeOf(s, i, start, i + |Range(start, count)|);
  }

  /** The same, with the index `e` of the space after the range given by name. */
  lemma ReadRangeTo(s: string, i: nat, start: string, count: string, e: nat)
    requires start != [] && AllDigits(start) && AllDigits(count)
    requires e == i + |Range(start, count)| && e < |s|
    requires s[i..e] == Range(start, count) && s[e] == ' '
    ensures ReadRange(s, i) == Some((DigitsValue(start), e))
  {
    ReadRangeAt(s, i, start, count);
  }

  lemma ReadRangeOf(s: string, i: nat, start: string, e: nat)
    requires start != [] && i + |start| <= |s|
    requires DigitRun(s, i) == i + |start| && s[i..i + |start|] == start
    requires SkipCount(s, i + |start|) == e
    ensures ReadRange(s, i) == Some((DigitsValue(start), e))
  {
  }

  /** A match at index 0 is the one the header line yields. */
  lemma HunkHeaderAtStart(s: string)
    requires HunkMatchAt(s, 0).Some?
    ensures HunkHeader(s) == HunkMatchAt(s, 0)
  {
  }

  /** The pattern matches at `p` when its two range groups and the text around them are found in turn. */
  lemma MatchAtRanges(s: string, p: nat, oldStart: nat, c: nat, newStart: nat, g: nat)
    requires OccursAt(s, "@@ -", p)
    requires ReadRange(s, p + 4) == Some((oldStart, c)) && OccursAt(s, " +", c)
    requires ReadRange(s, c + 2) == Some((newStart, g)) && OccursAt(s, " @@", g)
    ensures HunkMatchAt(s, p) == Some((oldStart, newStart))
  {
  }

  /** An occurrence of `x + y` is an occurrence of `x` followed by one of `y`. */
  lemma SplitAt(s: string, p: nat, x: string, y: string)
    requires OccursAt(s, x + y, p)
    ensures OccursAt(s, x, p) && OccursAt(s, y, p + |x|)
  {
    assert s[p..p + |x|] == s[p..p + |x + y|][..|x|] == (x + y)[..|x|] == x;
    assert s[p + |x|..p + |x| + |y|] == s[p..p + |x + y|][|x|..] == (x + y)[|x|..] == y;
  }

  /** The parts of a header text found at `p`, with its ranges ending at `c` and `g`. */
  lemma HeaderPieces(s: string, p: nat, c: nat, g: nat, r1: string, r2: string)
    requires OccursAt(s, "@@ -" + r1 + " +" + r2 + " @@", p)
    requires c == p + 4 + |r1| && g == c + 2 + |r2|
    ensures OccursAt(s, "@@ -", p) && OccursAt(s, r1, p + 4) && OccursAt(s, " +", c)
    ensures OccursAt(s, r2, c + 2) && OccursAt(s, " @@", g)
  {
    SplitAt(s, p, "@@ -" + r1 + " +" + r2, " @@");
    SplitAt(s, p, "@@ -" + r1 + " +", r2);
    SplitAt(s, p, "@@ -" + r1, " +");
    SplitAt(s, p, "@@ -", r1);
  }

  /** A range found at `i` and followed by text that starts with a space reads as that range. */
  lemma ReadRangeFound(s: string, i: nat, start: string, count: string, e: nat, after: string)
    requires start != [] && AllDigits(start) && AllDigits(count)
    requires OccursAt(s, Range(start, count), i) && e == i + |Range(start, count)|
    requires after != [] && after[0] == ' ' && OccursAt(s, after, e)
    ensures ReadRange(s, i) == Some((DigitsValue(start), e))
  {
    assert s[e] == s[e..e + |after|][0] == ' ';
    ReadRangeTo(s, i, start, count, e);
  }

  /** The old range of a header text found at `p` reads as its start line. */
  lemma OldRangeFound(s: string, p: nat, c: nat, g: nat, oldStart: string, oldCount: string, newStart: string, newCount: string)
    requires oldStart != [] && AllDigits(oldStart) && AllDigits(oldCount)
    requires OccursAt(s, HeaderText(oldStart, oldCount, newStart, newCount), p)
    requires c == p + 4 + |Range(oldStart, oldCount)| && g == c + 2 + |Range(newStart, newCount)|
    ensures ReadRange(s, p + 4) == Some((DigitsValue(oldStart), c))
  {
    HeaderPieces(s, p, c, g, Range(oldStart, oldCount), Range(newStart, newCount));
    ReadRangeFound(s, p + 4, oldStart, oldCount, c, " +");
  }

  /** The new range of a header text found at `p` reads as its start line. */
  lemma NewRangeFound(s: string, p: nat, c: nat, g: nat, oldStart: string, oldCount: string, newStart: string, newCount: string)
    requires newStart != [] && AllDigits(newStart) && AllDigits(newCount)
    requires OccursAt(s, HeaderText(oldStart, oldCount, newStart, newCount), p)
    requires c == p + 4 + |Range(oldStart, oldCount)| && g == c + 2 + |Range(newStart, newCount)|
    ensures ReadRange(s, c + 2) == Some((DigitsValue(newStart), g))
  {
    HeaderPieces(s, p, c, g, Range(oldStart, oldCount), Range(newStart, newCount));
    ReadRangeFound(s, c + 2, newStart, newCount, g, " @@");
  }

  /** The three fixed parts of a header text found at `p`, around ranges that end at `c` and `g`. */
  lemma HeaderMarkers(s: string, p: nat, c: nat, g: nat, oldStart: string, oldCount: string, newStart: string, newCount: string)
    requires OccursAt(s, HeaderText(oldStart, oldCount, newStart, newCount), p)
    requires c == p + 4 + |Range(oldStart, oldCount)| && g == c + 2 + |Range(newStart, newCount)|
    ensures OccursAt(s, "@@ -", p) && OccursAt(s, " +", c) && OccursAt(s, " @@", g)
  {
    HeaderPieces(s, p, c, g, Range(oldStart, oldCount), Range(newStart, newCount));
  }

  /**
   * The converse of `MatchAtSound`: a well-formed header text found at any index `p` is a
   * match there, and the numbers read are its two start lines.
   */
  lemma HeaderTextMatches(s: string, p: nat, oldStart: string, oldCount: string, newStart: string, newCount: string)
    requires oldStart != [] && AllDigits(oldStart) && AllDigits(oldCount)
    requires newStart != [] && AllDigits(newStart) && AllDigits(newCount)
    requires OccursAt(s, HeaderText(oldStart, oldCount, newStart, newCount), p)
    ensures HunkMatchAt(s, p) == Some((DigitsValue(oldStart), DigitsValue(newStart)))
  {
    var c := p + 4 + |Range(oldStart, oldCount)|;
    var g := c + 2 + |Range(newStart, newCount)|;
    OldRangeFound(s, p, c, g, oldStart, oldCount, newStart, newCount);
    NewRangeFound(s, p, c, g, oldStart, oldCount, newStart, newCount);
    HeaderMarkers(s, p, c, g, oldStart, oldCount, newStart, newCount);
    MatchAtRanges(s, p, DigitsValue(oldStart), c, DigitsValue(newStart), g);
  }

  /** A match at `p` is found by a search from any index at or before `p`. */
  lemma {:induction false} MatchFromSome(s: string, q: nat, p: nat)
    requires q <= p <= |s| && HunkMatchAt(s, p).Some?
    ensures HunkMatchFrom(s, q).Some?
    decreases p - q
  {
    if HunkMatchAt(s, q).None? {
      MatchFromSome(s, q + 1, p);
    }
  }

  /** A line that holds a well-formed header text anywhere has a match. */
  lemma HunkHeaderFound(line: string, p: nat, oldStart: string, oldCount: string, newStart: string, newCount: string)
    requires oldStart != [] && AllDigits(oldStart) && AllDigits(oldCount)
    requires newStart != [] && AllDigits(newStart) && AllDigits(newCount)
    requires OccursAt(line, HeaderText(oldStart, oldCount, newStart, newCount), p)
    ensures HunkHeader(line).Some?
  {
    HeaderTextMatches(line, p, oldStart, oldCount, newStart, newCount);
    MatchFromSome(line, 0, p);
  }

  /** Where the parts of `@@ -<r1> +<r2> @@<rest>` stand. */
  lemma {:induction false} HeaderLayout(line: string, r1: string, r2: string, rest: string) returns (c: nat, g: nat)
    requires line == "@@ -" + r1 + " +" + r2 + " @@" + rest
    ensures c == 4 + |r1| && g == c + 2 + |r2| && g + 3 <= |line|
    ensures OccursAt(line, "@@ -", 0) && OccursAt(line, " +", c) && OccursAt(line, " @@", g)
    ensures line[4..c] == r1 && line[c] == ' ' && line[c + 2..g] == r2 && line[g] == ' '
  {
    c := 4 + |r1|;
    g := c + 2 + |r2|;
    assert line[..4] == "@@ -";
    assert line[4..c] == r1;
    assert line[c..c + 2] == " +";
    assert line[c + 2..g] == r2;
    assert line[g..g + 3] == " @@";
  }

  /**
   * A well-formed hunk header, `@@ -<start>[,<count>] +<start>[,<count>] @@` followed by
   * anything, is matched, and the counters are set to the two start lines it declares.
   */
  lemma HunkHeaderWellFormed(oldStart: string, oldCount: string, newStart: string, newCount: string, rest: string)
    requires oldStart != [] && AllDigits(oldStart) && AllDigits(oldCount)
    requires newStart != [] && AllDigits(newStart) && AllDigits(newCount)
    ensures HunkHeader("@@ -" + Range(oldStart, oldCount) + " +" + Range(newStart, newCount) + " @@" + rest)
      == Some((DigitsValue(oldStart), DigitsValue(newStart)))
  {
    WellFormedMatch(oldStart, oldCount, newStart, newCount, rest);
    HunkHeaderAtStart("@@ -" + Range(oldStart, oldCount) + " +" + Range(newStart, newCount) + " @@" + rest);
  }

  /** A line that begins with a well-formed header text is matched at index 0. */
  lemma WellFormedMatch(oldStart: string, oldCount: string, newStart: string, newCount: string, rest: string)
    requires oldStart != [] && AllDigits(oldStart) && AllDigits(oldCount)
    requires newStart != [] && AllDigits(newStart) && AllDigits(newCount)
    ensures HunkMatchAt(HeaderText(oldStart, oldCount, newStart, newCount) + rest, 0)
      == Some((DigitsValue(oldStart), DigitsValue(newStart)))
  {
    var line := HeaderText(oldStart, oldCount, newStart, newCount) + rest;
    var c, g := HeaderRanges(oldStart, oldCount, newStart, newCount, rest, line);
    MatchAtRanges(line, 0, DigitsValue(oldStart), c, DigitsValue(newStart), g);
  }

  /** In a line that begins with a well-formed header text, both range groups read their start lines. */
  lemma HeaderRanges(oldStart: string, oldCount: string, newStart: string, newCount: string, rest: string,
                     line: string) returns (c: nat, g: nat)
    requires oldStart != [] && AllDigits(oldStart) && AllDigits(oldCount)
    requires newStart != [] && AllDigits(newStart) && AllDigits(newCount)
    requires line == HeaderText(oldStart, oldCount, newStart, newCount) + rest
    ensures c == 4 + |Range(oldStart, oldCount)| && g == c + 2 + |Range(newStart, newCount)|
    ensures OccursAt(line, "@@ -", 0) && OccursAt(line, " +", c) && OccursAt(line, " @@", g)
    ensures ReadRange(line, 4) == Some((DigitsValue(oldStart), c))
    ensures ReadRange(line, c + 2) == Some((DigitsValue(newStart), g))
  {
    var r1 := Range(oldStart, oldCount);
    var r2 := Range(newStart, newCount);
    assert line == "@@ -" + r1 + " +" + r2 + " @@" + rest;
    c, g := HeaderLayout(line, r1, r2, rest);
    ReadRangeTo(line, 4, oldStart, oldCount, c);
    ReadRangeTo(line, c + 2, newStart, newCount, g);
  }

  /**
   * The header git writes, `@@ -<oldStart>[,<oldCount>] +<newStart>[,<newCount>] @@`, with
   * the counts left out when they are empty, sets the counters to its two start lines.
   */
  lemma HunkHeaderNumbers(oldStart: nat, oldCount: string, newStart: nat, newCount: string, rest: string)
    requires AllDigits(oldCount) && AllDigits(newCount)
    ensures HunkHeader("@@ -" + Range(Decimal(oldStart), oldCount) + " +" + Range(Decimal(newStart), newCount) + " @@" + rest)
      == Some((oldStart, newStart))
  {
    DecimalValue(oldStart);
    DecimalValue(newStart);
    HunkHeaderWellFormed(Decimal(oldStart), oldCount, Decimal(newStart), newCount, rest);
  }

  /** The text the hunk-header pattern matches: `@@ -<start>[,<count>] +<start>[,<count>] @@`. */
  function HeaderText(oldStart: string, oldCount: string, newStart: string, newCount: string): string {
    "@@ -" + Range(oldStart, oldCount) + " +" + Range(newStart, newCount) + " @@"
  }

  /** What a range group reads is a start line of digits and an optional count of digits. */
  lemma ReadRangeSound(s: string, a: nat, v: nat, e: nat) returns (start: string, count: string)
    requires a <= |s| && ReadRange(s, a) == Some((v, e))
    ensures start != [] && AllDigits(start) && AllDigits(count)
    ensures a + |Range(start, count)| == e && e <= |s| && s[a..e] == Range(start, count)
    ensures v == DigitsValue(start)
  {
    var b := DigitRun(s, a);
    DigitRunDigits(s, a);
    DigitSlice(s, a, b);
    start := s[a..b];
    if b + 1 < |s| && s[b] == ',' && IsDigit(s[b + 1]) {
      var f := DigitRun(s, b + 1);
      DigitRunDigits(s, b + 1);
      DigitSlice(s, b + 1, f);
      count := s[b + 1..f];
      CommaSlice(s, a, b, f);
    } else {
      count := [];
    }
  }

  /** The two range groups of a header, read one after the other, are both sound. */
  lemma RangesSound(s: string, a: nat, o: nat, c: nat, n: nat, g: nat)
    returns (oldStart: string, oldCount: string, newStart: string, newCount: string)
    requires a <= c && c + 2 <= |s|
    requires ReadRange(s, a) == Some((o, c)) && ReadRange(s, c + 2) == Some((n, g))
    ensures oldStart != [] && AllDigits(oldStart) && AllDigits(oldCount)
    ensures a + |Range(oldStart, oldCount)| == c && s[a..c] == Range(oldStart, oldCount)
    ensures newStart != [] && AllDigits(newStart) && AllDigits(newCount)
    ensures c + 2 + |Range(newStart, newCount)| == g && g <= |s| && s[c + 2..g] == Range(newStart, newCount)
    ensures o == DigitsValue(oldStart) && n == DigitsValue(newStart)
  {
    newStart, newCount := ReadRangeSound(s, c + 2, n, g);
    oldStart, oldCount := ReadRangeSound(s, a, o, c);
  }

  /** A stretch of digits, cut out, is a digit string. */
  lemma DigitSlice(s: string, i: nat, j: nat)
    requires i <= j <= |s|
    requires forall k :: i <= k < j ==> IsDigit(s[k])
    ensures AllDigits(s[i..j])
  {
    forall k | 0 <= k < j - i
      ensures IsDigit(s[i..j][k])
    {
      assert s[i..j][k] == s[i + k];
    }
  }

  /** A stretch with a comma at `b` is the part before it, the comma and the part after it. */
  lemma CommaSlice(s: string, a: nat, b: nat, f: nat)
    requires a <= b < f <= |s| && s[b] == ','
    ensures s[a..f] == s[a..b] + "," + s[b + 1..f]
  {
    assert s[b..b + 1] == ",";
    assert s[a..f] == s[a..b] + s[b..b + 1] + s[b + 1..f];
  }

  /** The pieces of a match at `p` lie side by side in the line. */
  lemma {:induction false} MatchPieces(s: string, p: nat, r1: string, c: nat, r2: string, g: nat)
    requires OccursAt(s, "@@ -", p) && p + 4 + |r1| == c && c <= |s| && s[p + 4..c] == r1
    requires OccursAt(s, " +", c) && c + 2 + |r2| == g && g <= |s| && s[c + 2..g] == r2
    requires OccursAt(s, " @@", g)
    ensures OccursAt(s, "@@ -" + r1 + " +" + r2 + " @@", p)
  {
    JoinAt(s, p, "@@ -", r1);
    JoinAt(s, p, "@@ -" + r1, " +");
    JoinAt(s, p, "@@ -" + r1 + " +", r2);
    JoinAt(s, p, "@@ -" + r1 + " +" + r2, " @@");
  }

  /** Two strings found side by side at `p` form their concatenation there. */
  lemma JoinAt(s: string, p: nat, x: string, y: string)
    requires OccursAt(s, x, p) && OccursAt(s, y, p + |x|)
    ensures OccursAt(s, x + y, p)
  {
    assert s[p..p + |x| + |y|] == s[p..p + |x|] + s[p + |x|..p + |x| + |y|];
  }

  /** A match at `p` found in turn: `@@ -`, the old range, ` +`, the new range and ` @@`. */
  lemma MatchAtParts(s: string, p: nat) returns (o: nat, c: nat, n: nat, g: nat)
    requires p <= |s| && HunkMatchAt(s, p).Some?
    ensures OccursAt(s, "@@ -", p) && ReadRange(s, p + 4) == Some((o, c)) && c <= |s|
    ensures OccursAt(s, " +", c) && ReadRange(s, c + 2) == Some((n, g))
    ensures OccursAt(s, " @@", g) && HunkMatchAt(s, p) == Some((o, n))
    ensures p + 4 <= c && c + 2 <= g && g + 3 <= |s|
  {
    var oldRange := ReadRange(s, p + 4).value;
    o, c := oldRange.0, oldRange.1;
    var newRange := ReadRange(s, c + 2).value;
    n, g := newRange.0, newRange.1;
  }

  /** A match at `p` is a well-formed header text at `p`, and the numbers are its two start lines. */
  lemma MatchAtSound(s: string, p: nat) returns (oldStart: string, oldCount: string, newStart: string, newCount: string)
    requires p <= |s| && HunkMatchAt(s, p).Some?
    ensures oldStart != [] && AllDigits(oldStart) && AllDigits(oldCount)
    ensures newStart != [] && AllDigits(newStart) && AllDigits(newCount)
    ensures OccursAt(s, HeaderText(oldStart, oldCount, newStart, newCount), p)
    ensures HunkMatchAt(s, p) == Some((DigitsValue(oldStart), DigitsValue(newStart)))
  {
    var o, c, n, g := MatchAtParts(s, p);
    oldStart, oldCount, newStart, newCount := RangesSound(s, p + 4, o, c, n, g);
    MatchPieces(s, p, Range(oldStart, oldCount), c, Range(newStart, newCount), g);
  }

  /** The search from `p` returns the match at the first index at or after `p` that has one. */
  lemma {:induction false} MatchFromFirst(s: string, p: nat) returns (q: nat)
    requires p <= |s| && HunkMatchFrom(s, p).Some?
    ensures p <= q <= |s| && HunkMatchAt(s, q) == HunkMatchFrom(s, p)
    ensures forall k :: p <= k < q ==> HunkMatchAt(s, k).None?
    decreases |s| - p
  {
    if HunkMatchAt(s, p).Some? {
      q := p;
    } else {
      assert p < |s| && HunkMatchFrom(s, p) == HunkMatchFrom(s, p + 1);
      q := MatchFromFirst(s, p + 1);
      forall k | p <= k < q
        ensures HunkMatchAt(s, k).None?
      {
        if k > p {
          assert p + 1 <= k < q;
        }
      }
    }
  }

  /**
   * The converse of `HunkHeaderWellFormed`: a line matches only where it holds a well-formed
   * header text, and the numbers read are that header's two start lines. The match is the
   * leftmost one, so the text need not start the line: `@@@ -3 +4 @@` reads 3 and 4.
   */
  lemma HunkHeaderSound(line: string, oldLine: nat, newLine: nat)
    requires HunkHeader(line) == Some((oldLine, newLine))
    ensures exists p: nat, oldStart, oldCount, newStart, newCount ::
      && oldStart != [] && AllDigits(oldStart) && AllDigits(oldCount)
      && newStart != [] && AllDigits(newStart) && AllDigits(newCount)
      && OccursAt(line, HeaderText(oldStart, oldCount, newStart, newCount), p)
      && oldLine == DigitsValue(oldStart) && newLine == DigitsValue(newStart)
      && forall k :: 0 <= k < p ==> HunkMatchAt(line, k).None?
  {
    var p := MatchFromFirst(line, 0);
    var oldStart, oldCount, newStart, newCount := MatchAtSound(line, p);
  }

  /** The pattern need not start the line: a third `@` in front is skipped over. */
  lemma HunkHeaderLater()
    ensures HunkHeader("@@@ -3 +4 @@") == Some((3, 4))
  {
    var s := "@@@ -3 +4 @@";
    assert !OccursAt(s, "@@ -", 0) by {
      assert s[2] == '@';
    }
    assert s[1..5] == "@@ -";
    assert DigitRun(s, 5) == 6 by {
      DigitRunExact(s, 5, 6);
    }
    assert s[5..6] == "3" && s[6..8] == " +";
    assert ReadRange(s, 5) == Some((3, 6));
    assert DigitRun(s, 8) == 9 by {
      DigitRunExact(s, 8, 9);
    }
    assert s[8..9] == "4" && s[9..12] == " @@";
    assert ReadRange(s, 8) == Some((4, 9));
    assert HunkMatchAt(s, 1) == Some((3, 4));
    assert HunkMatchFrom(s, 0) == HunkMatchFrom(s, 1);
  }

  /** No match anywhere at or after `p` when `@@ -` occurs nowhere there. */
  lemma {:induction false} HunkMatchFromNone(s: string, p: nat)
    requires p <= |s|
    requires forall k: nat :: p <= k <= |s| ==> !OccursAt(s, "@@ -", k)
    ensures HunkMatchFrom(s, p) == None
    decreases |s| - p
  {
    if p < |s| {
      HunkMatchFromNone(s, p + 1);
    }
  }

  /**
   * A line that starts with `@@` but holds no `@@ -`, such as `@@ bad @@`, is not matched:
   * it still opens a hunk, and the counters keep their values.
   */
  lemma HunkHeaderAbsent(line: string)
    requires Free(line, "@@ -")
    ensures HunkHeader(line) == None
  {
    HunkMatchFromNone(line, 0);
  }

  /** A header whose new start line is not a number is not matched, so the counters are kept. */
  lemma HunkHeaderMalformed()
    ensures HunkHeader("@@ -1 +x @@") == None
  {
    var s := "@@ -1 +x @@";
    assert s[..4] == "@@ -";
    assert DigitRun(s, 4) == 5 by {
      DigitRunExact(s, 4, 5);
    }
    assert s[5..7] == " +" && s[7] == 'x';
    assert HunkMatchAt(s, 0) == None;
    forall k: nat | 1 <= k <= |s|
      ensures !OccursAt(s, "@@ -", k)
    {
      if k + 4 <= |s| {
        assert s[k..k + 4][0] == s[k];
      }
    }
    HunkMatchFromNone(s, 1);
  }

  // A blank patch

  /** A patch of whitespace alone yields no files. */
  lemma BlankPatch(patch: string)
    requires forall k :: 0 <= k < |patch| ==> IsSpace(patch[k])
    ensures Parse(patch) == []
  {
    if patch != [] {
      forall k: nat | k <= |patch|
        ensures !OccursAt(patch, SectionMarker, k)
      {
        if k + |SectionMarker| <= |patch| {
          assert patch[k..k + |SectionMarker|][0] == patch[k];
          assert !IsSpace('d');
        }
      }
      assert Split(patch, SectionMarker) == [patch];
      assert Files([patch]) == Files([]) == [];
    }
  }
}
