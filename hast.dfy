/**
 * `flattenHast` of src/DiffViewer.tsx: turns the syntax tree of a highlighted line into a
 * flat list of text runs, each drawn with the innermost class that encloses it.
 */
module Hast {
  import opened Wrappers
  import opened Strings
  import opened Types

  const DefaultClass: string := "token-text"
  const TokenPrefix: string := "token "

  /** The class a text node is drawn with under `classStack`: the innermost one, or the default. */
  function Innermost(classStack: seq<string>): string {
    if |classStack| > 0 then classStack[|classStack| - 1] else DefaultClass
  }

  /** `flattenHast(nodes, classStack)`: the tokens of each node in turn. */
  function Flatten(nodes: seq<AstNode>, classStack: seq<string>): seq<FlatToken>
    decreases nodes
  {
    if nodes == [] then [] else FlattenNode(nodes[0], classStack) + Flatten(nodes[1..], classStack)
  }

  /**
   * The tokens of one node: a text node is one token; an element with a class list
   * pushes its classes and flattens its children; any other node yields nothing.
   */
  function FlattenNode(node: AstNode, classStack: seq<string>): seq<FlatToken>
    decreases node
  {
    match node
    case TextNode(value) => [FlatToken(value, TokenPrefix + Innermost(classStack))]
    case ElementNode(classes, children) =>
      match classes
      case None => []
      case Some(names) => Flatten(children, classStack + names)
  }

  /** The texts of `tokens`, in order. */
  function Texts(tokens: seq<FlatToken>): seq<string> {
    if tokens == [] then [] else [tokens[0].text] + Texts(tokens[1..])
  }

  /**
   * The reference reading of a tree: the values of its text nodes, in document order,
   * that are not inside an element without a class list.
   */
  function VisibleTexts(nodes: seq<AstNode>): seq<string>
    decreases nodes
  {
    if nodes == [] then [] else VisibleNode(nodes[0]) + VisibleTexts(nodes[1..])
  }

  function VisibleNode(node: AstNode): seq<string>
    decreases node
  {
    match node
    case TextNode(value) => [value]
    case ElementNode(classes, children) => if classes.Some? then VisibleTexts(children) else []
  }

  lemma {:induction false} TextsAppend(a: seq<FlatToken>, b: seq<FlatToken>)
    ensures Texts(a + b) == Texts(a) + Texts(b)
    decreases |a|
  {
    if a == [] {
      assert a + b == b;
    } else {
      assert (a + b)[0] == a[0];
      assert (a + b)[1..] == a[1..] + b;
      TextsAppend(a[1..], b);
    }
  }

  /**
   * Flattening keeps the text and its order: the tokens' texts are the tree's visible
   * texts, whatever classes enclose the tree.
   */
  lemma {:induction false} FlattenTexts(nodes: seq<AstNode>, classStack: seq<string>)
    ensures Texts(Flatten(nodes, classStack)) == VisibleTexts(nodes)
    decreases nodes
  {
    if nodes != [] {
      FlattenNodeTexts(nodes[0], classStack);
      FlattenTexts(nodes[1..], classStack);
      TextsAppend(FlattenNode(nodes[0], classStack), Flatten(nodes[1..], classStack));
    }
  }

  lemma {:induction false} FlattenNodeTexts(node: AstNode, classStack: seq<string>)
    ensures Texts(FlattenNode(node, classStack)) == VisibleNode(node)
    decreases node
  {
    match node
    case TextNode(value) =>
      assert Texts([FlatToken(value, TokenPrefix + Innermost(classStack))]) == [value];
    case ElementNode(classes, children) =>
      if classes.Some? {
        FlattenTexts(children, classStack + classes.value);
      }
  }

  /** Every token is drawn with the `token` class first. */
  lemma {:induction false} FlattenClasses(nodes: seq<AstNode>, classStack: seq<string>)
    ensures forall t :: 0 <= t < |Flatten(nodes, classStack)| ==>
      StartsWith(Flatten(nodes, classStack)[t].className, TokenPrefix)
    decreases nodes
  {
    if nodes != [] {
      var head: seq<FlatToken> := FlattenNode(nodes[0], classStack);
      var tail: seq<FlatToken> := Flatten(nodes[1..], classStack);
      FlattenNodeClasses(nodes[0], classStack);
      FlattenClasses(nodes[1..], classStack);
      forall t: int | 0 <= t < |head + tail|
        ensures StartsWith((head + tail)[t].className, TokenPrefix)
      {
        if t < |head| {
          assert (head + tail)[t] == head[t];
        } else {
          assert (head + tail)[t] == tail[t - |head|];
        }
      }
    }
  }

  lemma {:induction false} FlattenNodeClasses(node: AstNode, classStack: seq<string>)
    ensures forall t :: 0 <= t < |FlattenNode(node, classStack)| ==>
      StartsWith(FlattenNode(node, classStack)[t].className, TokenPrefix)
    decreases node
  {
    match node
    case TextNode(value) =>
      var name := TokenPrefix + Innermost(classStack);
      assert FlattenNode(node, classStack)[0].className == name;
      assert name[..|TokenPrefix|] == TokenPrefix;
    case ElementNode(classes, children) =>
      if classes.Some? {
        FlattenClasses(children, classStack + classes.value);
      }
  }

  /** A flat map: the tokens of two lists of nodes are the tokens of each, in order. */
  lemma {:induction false} FlattenAppend(a: seq<AstNode>, b: seq<AstNode>, classStack: seq<string>)
    ensures Flatten(a + b, classStack) == Flatten(a, classStack) + Flatten(b, classStack)
    decreases |a|
  {
    if a == [] {
      assert a + b == b;
    } else {
      assert (a + b)[0] == a[0];
      assert (a + b)[1..] == a[1..] + b;
      FlattenAppend(a[1..], b, classStack);
    }
  }

  /**
   * A text node takes the last class of the innermost element around it that has a
   * non-empty class list, or `token-text` when there is none.
   */
  lemma TextUnderElement(value: string, names: seq<string>, classStack: seq<string>)
    ensures Flatten([ElementNode(Some(names), [TextNode(value)])], classStack)
      == [FlatToken(value, TokenPrefix + (if names != [] then names[|names| - 1] else Innermost(classStack)))]
  {
    var node := ElementNode(Some(names), [TextNode(value)]);
    assert Flatten([node], classStack) == FlattenNode(node, classStack) + Flatten([], classStack);
    assert FlattenNode(node, classStack) == Flatten([TextNode(value)], classStack + names);
    assert Flatten([TextNode(value)], classStack + names) == FlattenNode(TextNode(value), classStack + names) + Flatten([], classStack + names);
  }
}
