/** What `TonnikalaIRGenerator` computes for one source node, stated on values:
    which directives an element's tag and attributes request, in which order
    they nest, which attributes they consume, and what the element itself
    becomes. The imperative generator (module Generator) is proved to build
    exactly these results; module DirectiveProperties proves what they mean. */
module Directives {
  import opened Results
  import opened Text
  import opened Dom
  import opened Ir

  /** The control prefix of the class (`control_prefix = 'py:'`). */
  const DefaultPrefix: string := "py:"

  /** A control prefix as the constructor produces it: it ends in a colon. */
  predicate ValidPrefix(prefix: string) {
    |prefix| > 0 && prefix[|prefix| - 1] == ':'
  }

  /** The prefix `__init__` installs: a `control_prefix` argument with a colon
      appended, or the class default. */
  function PrefixFor(configured: Option<string>): (prefix: string)
    ensures ValidPrefix(prefix)
    ensures configured.Some? ==> prefix[..|prefix| - 1] == configured.value
    ensures configured.None? ==> prefix == DefaultPrefix
  {
    match configured
    case Some(p) => p + ":"
    case None => DefaultPrefix
  }

  /** `is_control_name`: `name` is the prefix followed by `toMatch`. */
  predicate IsControlName(prefix: string, name: string, toMatch: string) {
    prefix + toMatch == name
  }

  const TranslatableAttrs: set<string> := {"title", "alt", "placeholder"}

  /** `is_attr_translatable`: the scope's flag is set and the name is one of
      the three translatable attribute names. */
  function IsAttrTranslatable(translatable: bool, name: string): (r: bool)
    ensures r <==> translatable && (name == "title" || name == "alt" || name == "placeholder")
  {
    translatable && name in TranslatableAttrs
  }

  /** The line `syntax_error` reports for a node: the first component of its
      position, or 0 when it has none. */
  function LineOf(position: Option<Position>): int {
    match position
    case Some(p) => p.0
    case None => 0
  }

  function SyntaxErrorAt(message: string, position: Option<Position>): SyntaxError {
    SyntaxError(message, LineOf(position))
  }

  function MissingAttributeMessage(tag: string, name: string): string {
    "<" + tag + "> does not have the required attribute '" + name + "'"
  }

  /** `grab_mandatory_attribute`: the attribute's value, read without
      removing it, or a syntax error naming the tag and the attribute. */
  function RequiredAttribute(tag: string, position: Option<Position>, attrs: Attrs, name: string)
    : (r: Result<string>)
    ensures r.Ok? <==> name in Names(attrs)
    ensures r.Ok? ==> Lookup(attrs, name) == Some(r.value)
    ensures r.Err? ==> r.error == SyntaxError(MissingAttributeMessage(tag, name), LineOf(position))
  {
    match Lookup(attrs, name)
    case Some(v) => Ok(v)
    case None => Err(SyntaxErrorAt(MissingAttributeMessage(tag, name), position))
  }

  /** The list `[grab_mandatory_attribute(dom_node, i) for i in names]`: every
      value in order, or the error for the first name that is missing. */
  function MandatoryArgs(tag: string, position: Option<Position>, attrs: Attrs, names: seq<string>)
    : (r: Result<seq<string>>)
    ensures r.Ok? <==> forall i :: 0 <= i < |names| ==> names[i] in Names(attrs)
    ensures r.Ok? ==> |r.value| == |names|
    ensures r.Ok? ==> forall i :: 0 <= i < |names| ==> Lookup(attrs, names[i]) == Some(r.value[i])
    ensures r.Err? ==> exists k :: 0 <= k < |names| && names[k] !in Names(attrs)
                        && (forall i :: 0 <= i < k ==> names[i] in Names(attrs))
                        && r.error == SyntaxError(MissingAttributeMessage(tag, names[k]), LineOf(position))
  {
    if names == [] then Ok([])
    else
      var first :- RequiredAttribute(tag, position, attrs, names[0]);
      var rest :- MandatoryArgs(tag, position, attrs, names[1..]);
      Ok([first] + rest)
  }

  /** The eight tag-form directives, in the order `create_control_nodes`
      tries them. */
  datatype TagDirective = TagExtends | TagBlock | TagIf | TagFor | TagDef | TagImport | TagWith | TagVars

  function TagName(d: TagDirective): string {
    match d
    case TagExtends => "extends"
    case TagBlock => "block"
    case TagIf => "if"
    case TagFor => "for"
    case TagDef => "def"
    case TagImport => "import"
    case TagWith => "with"
    case TagVars => "vars"
  }

  /** The unprefixed attributes a tag-form directive must carry. */
  function MandatoryOf(d: TagDirective): seq<string> {
    match d
    case TagExtends => ["href"]
    case TagBlock => ["name"]
    case TagIf => ["test"]
    case TagFor => ["each"]
    case TagDef => ["function"]
    case TagImport => ["href", "alias"]
    case TagWith => ["vars"]
    case TagVars => ["names"]
  }

  function BuildTagNode(d: TagDirective, args: seq<string>): NodeKind
    requires |args| == |MandatoryOf(d)|
  {
    match d
    case TagExtends => Extends(args[0])
    case TagBlock => Block(args[0])
    case TagIf => If(args[0])
    case TagFor => For(args[0])
    case TagDef => Define(args[0])
    case TagImport => Import(args[0], args[1])
    case TagWith => With(args[0])
    case TagVars => With(args[0])
  }

  /** A directive node as created, before it is linked: its kind and position. */
  datatype NodeSpec = NodeSpec(kind: NodeKind, position: Option<Position>)

  /** One call of the nested `make_control_node`: nothing unless the tag is
      this directive's control name, otherwise one node positioned at the
      element, built from the mandatory attributes. */
  function TagOne(prefix: string, tag: string, position: Option<Position>, attrs: Attrs, d: TagDirective)
    : (r: Result<seq<NodeSpec>>)
    ensures r.Err? ==> IsControlName(prefix, tag, TagName(d))
    ensures r.Ok? ==> |r.value| == (if IsControlName(prefix, tag, TagName(d)) then 1 else 0)
  {
    if !IsControlName(prefix, tag, TagName(d)) then Ok([])
    else
      var args :- MandatoryArgs(tag, position, attrs, MandatoryOf(d));
      Ok([NodeSpec(BuildTagNode(d, args), position)])
  }

  /** The tag-form directives in the order `create_control_nodes` tries them. */
  const TagDirectives: seq<TagDirective> :=
    [TagExtends, TagBlock, TagIf, TagFor, TagDef, TagImport, TagWith, TagVars]

  /** The `make_control_node` calls for `ds`, one after the other: the nodes
      they append, or the error of the first call that fails. */
  function TagChain(prefix: string, tag: string, position: Option<Position>, attrs: Attrs,
                    ds: seq<TagDirective>): Result<seq<NodeSpec>>
  {
    if ds == [] then Ok([])
    else
      var before :- TagChain(prefix, tag, position, attrs, ds[..|ds| - 1]);
      var last :- TagOne(prefix, tag, position, attrs, ds[|ds| - 1]);
      Ok(before + last)
  }

  /** Once a prefix of the calls has failed, the later calls do not change
      the outcome. */
  lemma {:induction false} TagChainErrStays(prefix: string, tag: string, position: Option<Position>,
                                            attrs: Attrs, ds: seq<TagDirective>, k: nat)
    requires k <= |ds| && TagChain(prefix, tag, position, attrs, ds[..k]).Err?
    ensures TagChain(prefix, tag, position, attrs, ds) == TagChain(prefix, tag, position, attrs, ds[..k])
    decreases |ds| - k
  {
    if k < |ds| {
      assert ds[..k + 1][..k] == ds[..k];
      TagChainErrStays(prefix, tag, position, attrs, ds, k + 1);
    } else {
      assert ds[..k] == ds;
    }
  }

  /** The calls for `ds[..i + 1]` are those for `ds[..i]` followed by the
      one for `ds[i]`. */
  lemma TagChainStep(prefix: string, tag: string, position: Option<Position>, attrs: Attrs,
                     ds: seq<TagDirective>, i: nat, specs: seq<NodeSpec>)
    requires i < |ds| && TagChain(prefix, tag, position, attrs, ds[..i]) == Ok(specs)
    ensures var one := TagOne(prefix, tag, position, attrs, ds[i]);
            TagChain(prefix, tag, position, attrs, ds[..i + 1])
            == if one.Err? then Err(one.error) else Ok(specs + one.value)
  {
    assert ds[..i + 1][..i] == ds[..i];
  }

  /** The tag-form checks of `create_control_nodes`, in source order. */
  function TagForm(prefix: string, tag: string, position: Option<Position>, attrs: Attrs)
    : Result<seq<NodeSpec>>
  {
    TagChain(prefix, tag, position, attrs, TagDirectives)
  }

  /** The six attribute-form directives, in the order they are looked for. */
  datatype AttrDirective = AttrBlock | AttrIf | AttrFor | AttrDef | AttrWith | AttrVars

  const AttrDirectives: seq<AttrDirective> := [AttrBlock, AttrIf, AttrFor, AttrDef, AttrWith, AttrVars]

  function AttrName(d: AttrDirective): string {
    match d
    case AttrBlock => "block"
    case AttrIf => "if"
    case AttrFor => "for"
    case AttrDef => "def"
    case AttrWith => "with"
    case AttrVars => "vars"
  }

  function BuildAttrNode(d: AttrDirective, value: string): NodeKind {
    match d
    case AttrBlock => Block(value)
    case AttrIf => If(value)
    case AttrFor => For(value)
    case AttrDef => Define(value)
    case AttrWith => With(value)
    case AttrVars => With(value)
  }

  /** The position an attribute-form node gets: attribute values are plain
      strings without a `position`, so the `(0, 0)` default applies. */
  const AttrPosition: Option<Position> := Some((0, 0))

  /** `grab_and_remove_control_attr` on values: the attribute's value, if
      present, and the attributes without it. */
  function Grab(attrs: Attrs, name: string): (Option<string>, Attrs) {
    (Lookup(attrs, name), Keep(attrs, {name}))
  }

  /** One call of the nested `make_control_node_of_attr`. */
  function AttrOne(prefix: string, attrs: Attrs, d: AttrDirective): (seq<NodeSpec>, Attrs) {
    var (value, rest) := Grab(attrs, prefix + AttrName(d));
    (if value.Some? then [NodeSpec(BuildAttrNode(d, value.value), AttrPosition)] else [], rest)
  }

  /** The `make_control_node_of_attr` calls for `ds`, one after the other:
      the nodes they append and the attributes left. */
  function AttrChain(prefix: string, attrs: Attrs, ds: seq<AttrDirective>): (seq<NodeSpec>, Attrs)
  {
    if ds == [] then ([], attrs)
    else
      var (before, mid) := AttrChain(prefix, attrs, ds[..|ds| - 1]);
      var (last, rest) := AttrOne(prefix, mid, ds[|ds| - 1]);
      (before + last, rest)
  }

  lemma AttrChainSnoc(prefix: string, attrs: Attrs, ds: seq<AttrDirective>, i: nat)
    requires i < |ds|
    ensures var (found, mid) := AttrChain(prefix, attrs, ds[..i]);
            AttrChain(prefix, attrs, ds[..i + 1]) == (found + AttrOne(prefix, mid, ds[i]).0, AttrOne(prefix, mid, ds[i]).1)
  {
    assert ds[..i + 1][..i] == ds[..i];
  }

  /** The attribute-form checks of `create_control_nodes`, in source order:
      the nodes found and the attributes left. */
  function AttrForm(prefix: string, attrs: Attrs): (seq<NodeSpec>, Attrs) {
    AttrChain(prefix, attrs, AttrDirectives)
  }

  /** The result of `create_control_nodes`: whether the element itself is to
      be generated, the discovered nodes outermost first, and the attributes
      left on the element. */
  datatype Control = Control(generateElement: bool, chain: seq<NodeSpec>, rest: Attrs)

  function ControlNodes(prefix: string, tag: string, position: Option<Position>, attrs: Attrs)
    : Result<Control>
  {
    var tagNodes :- TagForm(prefix, tag, position, attrs);
    var (attrNodes, rest) := AttrForm(prefix, attrs);
    Ok(Control(tagNodes == [], tagNodes + attrNodes, rest))
  }

  /** The guard an element gets from its `strip` value: none without one, the
      constant `1` for an empty or blank value, the value itself otherwise. */
  function NormalizeGuard(strip: Option<string>): (guard: Option<string>)
    ensures strip.None? ==> guard.None?
    ensures strip.Some? && AllWhitespace(strip.value) ==> guard == Some("1")
    ensures strip.Some? && !AllWhitespace(strip.value) ==> guard == strip
  {
    match strip
    case None => None
    case Some(s) =>
      StripEmptyIff(s);
      if Strip(s) == [] then Some("1") else strip
  }

  /** The attribute list `generate_attributes_for_node` passes on: every
      remaining attribute, in order, with its translatability. */
  function StaticAttrs(attrs: Attrs, translatable: bool): (r: seq<StaticAttr>)
    ensures |r| == |attrs|
    ensures forall i :: 0 <= i < |attrs| ==>
      r[i] == StaticAttr(attrs[i].name, attrs[i].value, IsAttrTranslatable(translatable, attrs[i].name))
  {
    if attrs == [] then []
    else [StaticAttr(attrs[0].name, attrs[0].value, IsAttrTranslatable(translatable, attrs[0].name))]
         + StaticAttrs(attrs[1..], translatable)
  }

  /** What becomes of the innermost node's children: the element's own
      children are generated, replaced by one expression, or none are added. */
  datatype Fill = Generated | Override(expression: string) | NoChildren

  /** The subtree `generate_element_node` builds: the nodes from the outermost
      down to the innermost, each the only child of the one before; what fills
      the innermost; and the attributes left on the source element. */
  datatype Synthesis = Synthesis(path: seq<NodeSpec>, fill: Fill, rest: Attrs)

  /** The replacement expression: the mandatory `value` of a replace tag, or
      the prefixed `replace` attribute (removed) of any other element. */
  function ReplaceValue(prefix: string, tag: string, position: Option<Position>, attrs: Attrs)
    : Result<(Option<string>, Attrs)>
  {
    if IsControlName(prefix, tag, "replace") then
      var v :- RequiredAttribute(tag, position, attrs, "value");
      Ok((Some(v), attrs))
    else
      Ok(Grab(attrs, prefix + "replace"))
  }

  /** A non-empty `content` value overrides the children; an empty one does not. */
  function FillOf(content: Option<string>): Fill {
    if content.Some? && content.value != "" then Override(content.value) else Generated
  }

  /** The innermost node `generate_element_node` hangs below the directive
      chain, made from the attributes `attrs` left after `replace`: the
      replacement expression, the element itself with its static and dynamic
      attributes, or nothing when a tag-form directive suppresses the element. */
  function Innermost(prefix: string, translatable: bool, tag: string, guard: Option<string>,
                     replace: Option<string>, generateElement: bool, attrs: Attrs): seq<NodeSpec>
  {
    if replace.Some? then [NodeSpec(Expression(replace.value), None)]
    else if generateElement then
      var (dynamic, rest) := Grab(attrs, prefix + "attrs");
      [NodeSpec(Element(tag, guard, StaticAttrs(rest, translatable), dynamic), None)]
    else []
  }

  /** The attributes left once the innermost node is made: only the element
      consumes `attrs`. */
  function Leftover(prefix: string, replace: Option<string>, generateElement: bool, attrs: Attrs): Attrs {
    if replace.None? && generateElement then Keep(attrs, {prefix + "attrs"}) else attrs
  }

  /** `generate_element_node` on values. */
  function ElementNode(prefix: string, translatable: bool, tag: string, position: Option<Position>,
                       attrs: Attrs): Result<Synthesis>
  {
    var c :- ControlNodes(prefix, tag, position, attrs);
    var (strip, a1) := Grab(c.rest, prefix + "strip");
    var guard := NormalizeGuard(strip);
    var (content, a2) := Grab(a1, prefix + "content");
    var replaced :- ReplaceValue(prefix, tag, position, a2);
    var (replace, a3) := replaced;
    var fill := if replace.Some? then NoChildren else FillOf(content);
    Ok(Synthesis(c.chain + Innermost(prefix, translatable, tag, guard, replace, c.generateElement, a3),
                 fill, Leftover(prefix, replace, c.generateElement, a3)))
  }

  /** `generate_ir_node` for every node type but elements. */
  function NonElementNode(nodeType: nat, value: string, markup: string, position: Option<Position>,
                          isCdata: bool, translatable: bool): Result<NodeKind>
    requires nodeType != ELEMENT_NODE
  {
    if nodeType == TEXT_NODE then Ok(Scanned(value, isCdata, translatable))
    else if nodeType == COMMENT_NODE then Ok(EscapedText("<!--" + value + "-->"))
    else if nodeType == PROCESSING_INSTRUCTION_NODE then Ok(Code(Strip(value)))
    else if nodeType == DOCUMENT_TYPE_NODE then Ok(EscapedText(markup))
    else Err(SyntaxErrorAt("Unhandled node type " + NatToString(nodeType), position))
  }
}
