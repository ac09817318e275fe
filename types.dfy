/** The value shapes shared by the parser, the aligner and the inline differ. */
module Types {
  import opened Wrappers

  /** The kind of one line of a patch body. */
  datatype LineType = Add | Del | Context | Hunk

  /**
   * One line of a patch body. A hunk header keeps its raw text and has no numbers;
   * the other kinds have their marker column stripped and carry the running old and/or
   * new line number.
   */
  datatype DiffLine = DiffLine(
    kind: LineType,
    content: string,
    oldLineNumber: Option<nat>,
    newLineNumber: Option<nat>)

  /**
   * A span of an inline diff. The source's `{ value, added?, removed? }` record never
   * sets both flags, so the two flags become one three-way tag.
   */
  datatype ChangeTag = Unchanged | Added | Removed

  datatype Change = Change(value: string, tag: ChangeTag)

  /** One row of the two-column view; `None` is the source's `null` side or absent `diffs`. */
  datatype SplitDiffLine = SplitDiffLine(
    left: Option<DiffLine>,
    right: Option<DiffLine>,
    diffs: Option<seq<Change>>)

  /** One file section of the patch. */
  datatype ParsedFile = ParsedFile(
    fileName: string,
    splitLines: seq<SplitDiffLine>,
    additions: nat,
    deletions: nat)

  /**
   * A node of the syntax tree the highlighter returns. `className` is `None` when the
   * element has no `properties` or its `className` is not an array.
   */
  datatype AstNode =
    | TextNode(value: string)
    | ElementNode(className: Option<seq<string>>, children: seq<AstNode>)

  /** A run of highlighted text with the classes it is drawn with. */
  datatype FlatToken = FlatToken(text: string, className: string)
}
