/** The intermediate representation built by the generator: the closed set of
    node kinds with the data each carries, and the node object whose child
    list is appended to while the tree is built. */
module Ir {
  import opened Results
  import opened Dom

  /** A static attribute of an output element: its name, its literal text
      (handed to the expression scanner) and whether the scanner is asked to
      wrap it for translation. */
  datatype StaticAttr = StaticAttr(name: string, value: string, translatable: bool)

  datatype NodeKind =
    | Root
    | Element(tag: string, guard: Option<string>, attributes: seq<StaticAttr>,
              dynamicAttributes: Option<string>)
    | Text(text: string)
    | EscapedText(markup: string)
    | Expression(expression: string)
    | Comment(comment: string)
    | Code(code: string)
    | If(test: string)
    | Unless(test: string)
    | For(each: string)
    | Define(signature: string)
    | Import(href: string, alias: string)
    | Block(name: string)
    | Extends(href: string)
    | With(vars: string)
      /** What the external expression scanner builds from `source`; the
          scanner itself is not part of this model. */
    | Scanned(source: string, isCdata: bool, translatable: bool)

  /** The directive kinds: scope-carrying nodes that never hold attributes. */
  predicate IsDirective(k: NodeKind) {
    k.If? || k.Unless? || k.For? || k.Define? || k.Import? || k.Block? || k.Extends? || k.With?
  }

  /** One IR node: its kind and position are fixed when it is made, its
      child list grows. Every kind supports appending a child. */
  class IrNode {
    const kind: NodeKind
    const position: Option<Position>
    var children: seq<IrNode>

    constructor (kind: NodeKind, position: Option<Position>)
      ensures this.kind == kind && this.position == position && children == []
    {
      this.kind := kind;
      this.position := position;
      children := [];
    }

    method AddChild(child: IrNode)
      modifies this`children
      ensures children == old(children) + [child]
    {
      children := children + [child];
    }
  }
}
