/** `TonnikalaIRGenerator` as an object: its methods consume control attributes
    from the source element in place, allocate IR nodes and link them, and each
    is proved to build exactly what module Directives describes on values. */
module Generator {
  import opened Results
  import opened Text
  import opened Dom
  import opened Ir
  import opened Directives

  /** What `create_control_nodes` returns: `(generate_element, top, bottom)`. */
  datatype ControlOut = ControlOut(generateElement: bool, top: IrNode?, bottom: IrNode?)

  /** The nodes were created for the specifications: same kinds and positions. */
  ghost predicate Shaped(nodes: seq<IrNode>, specs: seq<NodeSpec>) {
    && |nodes| == |specs|
    && forall i :: 0 <= i < |nodes| ==> nodes[i].kind == specs[i].kind && nodes[i].position == specs[i].position
  }

  /** Each node's only child is the next node. */
  ghost predicate Linked(nodes: seq<IrNode>)
    reads nodes
  {
    forall i :: 0 <= i < |nodes| - 1 ==> nodes[i].children == [nodes[i + 1]]
  }

  ghost predicate Childless(nodes: seq<IrNode>)
    reads nodes
  {
    forall i :: 0 <= i < |nodes| ==> nodes[i].children == []
  }

  /** `nodes[i]`, as a term that only the distinctness reasoning below uses. */
  ghost function NodeAt(nodes: seq<IrNode>, i: nat): IrNode
    requires i < |nodes|
  {
    nodes[i]
  }

  /** No node occurs twice. */
  ghost predicate Distinct(nodes: seq<IrNode>) {
    forall i, j :: 0 <= i < j < |nodes| ==> NodeAt(nodes, i) != NodeAt(nodes, j)
  }

  lemma DistinctSnoc(nodes: seq<IrNode>, n: IrNode)
    requires Distinct(nodes) && n !in nodes
    ensures Distinct(nodes + [n])
  {
    forall i, j | 0 <= i < j < |nodes| + 1
      ensures NodeAt(nodes + [n], i) != NodeAt(nodes + [n], j)
    {
      if j < |nodes| {
        assert NodeAt(nodes, i) != NodeAt(nodes, j);
      }
    }
  }

  ghost function Elements(nodes: seq<IrNode>): set<IrNode> {
    set n | n in nodes
  }

  /** Nodes created for `specs` and not yet linked: the state of
      `create_control_nodes`' working list before its linking loop. */
  ghost predicate Pending(nodes: seq<IrNode>, specs: seq<NodeSpec>)
    reads nodes
  {
    && |nodes| == |specs|
    && (forall i :: 0 <= i < |nodes| ==>
          nodes[i].kind == specs[i].kind && nodes[i].position == specs[i].position && nodes[i].children == [])
    && Distinct(nodes)
  }

  /** The children of the innermost node are as `fill` says (`generated`
      stands for the children the base generator builds from the element's
      own children). */
  ghost predicate Fills(bottom: IrNode, fill: Fill, generated: seq<IrNode>)
    reads bottom, bottom.children
  {
    match fill
    case Generated => bottom.children == generated
    case Override(e) =>
      |bottom.children| == 1 && bottom.children[0].kind == Expression(e) && bottom.children[0].children == []
    case NoChildren => bottom.children == []
  }

  /** The subtree rooted at `path[0]` is what `s` describes: the nodes of the
      path, each the only child of the previous one, and the innermost node's
      children as `s.fill` says. */
  ghost predicate Built(path: seq<IrNode>, s: Synthesis, generated: seq<IrNode>)
    reads path, if path == [] then [] else path[|path| - 1].children
  {
    && |path| == |s.path| > 0
    && Shaped(path, s.path)
    && Linked(path)
    && Fills(path[|path| - 1], s.fill, generated)
  }

  class TonnikalaIrGenerator {
    const controlPrefix: string
    /** The `translatable` entry of the generator's current state. */
    const translatable: bool
    /** The base generator's `is_cdata` flag for text nodes. */
    const isCdata: bool

    /** `__init__`: the configured control prefix gets a colon appended. */
    constructor (translatable: bool, configuredPrefix: Option<string>, isCdata: bool)
      ensures controlPrefix == PrefixFor(configuredPrefix) && ValidPrefix(controlPrefix)
      ensures this.translatable == translatable && this.isCdata == isCdata
    {
      controlPrefix := PrefixFor(configuredPrefix);
      this.translatable := translatable;
      this.isCdata := isCdata;
    }

    /** `grab_and_remove_control_attr`: the prefixed attribute's value, if
        present, which is removed from the element. */
    method GrabAndRemoveControlAttr(dom: DomNode, name: string) returns (value: Option<string>)
      requires dom.Valid()
      modifies dom
      ensures dom.Valid()
      ensures (value, dom.attributes) == Grab(old(dom.attributes), controlPrefix + name)
    {
      var key := controlPrefix + name;
      if dom.HasAttribute(key) {
        value := Some(dom.GetAttribute(key));
        dom.RemoveAttribute(key);
      } else {
        value := None;
        KeepAbsent(dom.attributes, {key});
      }
    }

    /** `get_guard_expression`: consumes the prefixed `strip` attribute. */
    method GetGuardExpression(dom: DomNode) returns (guard: Option<string>)
      requires dom.Valid()
      modifies dom
      ensures dom.Valid()
      ensures (guard, dom.attributes) == Grab(old(dom.attributes), controlPrefix + "strip")
    {
      guard := GrabAndRemoveControlAttr(dom, "strip");
    }

    /** The list comprehension of `make_control_node`: the mandatory
        attributes' values in order, stopping at the first one missing. */
    method CollectMandatory(dom: DomNode, names: seq<string>) returns (r: Result<seq<string>>)
      ensures r == MandatoryArgs(dom.tagName, dom.position, dom.attributes, names)
    {
      var args: seq<string> := [];
      for i := 0 to |names|
        invariant |args| == i
        invariant forall j :: 0 <= j < i ==>
          names[j] in Names(dom.attributes) && Lookup(dom.attributes, names[j]) == Some(args[j])
      {
        var value := RequiredAttribute(dom.tagName, dom.position, dom.attributes, names[i]);
        if value.Err? {
          return Err(value.error);
        }
        args := args + [value.value];
      }
      ghost var spec := MandatoryArgs(dom.tagName, dom.position, dom.attributes, names);
      assert spec.Ok? && |spec.value| == |args|;
      assert forall j :: 0 <= j < |args| ==> spec.value[j] == args[j];
      assert spec.value == args;
      return Ok(args);
    }

    /** The nested `make_control_node`: appends a node for the tag-form
        directive `d` when the tag is its control name. */
    method MakeControlNode(dom: DomNode, stack: seq<IrNode>, ghost specs: seq<NodeSpec>, d: TagDirective)
      returns (r: Result<seq<IrNode>>)
      requires Pending(stack, specs)
      ensures var spec := TagOne(controlPrefix, dom.tagName, dom.position, dom.attributes, d);
        && (r.Err? <==> spec.Err?)
        && (r.Err? ==> r.error == spec.error)
        && (r.Ok? ==> Pending(r.value, specs + spec.value) )
      ensures r.Ok? ==> fresh(Elements(r.value) - Elements(stack))
    {
      if !IsControlName(controlPrefix, dom.tagName, TagName(d)) {
        assert specs + [] == specs;
        return Ok(stack);
      }
      var args := CollectMandatory(dom, MandatoryOf(d));
      if args.Err? {
        return Err(args.error);
      }
      var node := new IrNode(BuildTagNode(d, args.value), dom.position);
      DistinctSnoc(stack, node);
      r := Ok(stack + [node]);
    }

    /** The nested `make_control_node_of_attr`: consumes the prefixed
        attribute of the attribute-form directive `d` and appends its node. */
    method MakeControlNodeOfAttr(dom: DomNode, stack: seq<IrNode>, ghost specs: seq<NodeSpec>, d: AttrDirective)
      returns (r: seq<IrNode>)
      requires dom.Valid() && Pending(stack, specs)
      modifies dom
      ensures dom.Valid()
      ensures Pending(r, specs + AttrOne(controlPrefix, old(dom.attributes), d).0)
      ensures dom.attributes == AttrOne(controlPrefix, old(dom.attributes), d).1
      ensures fresh(Elements(r) - Elements(stack))
    {
      var attr := GrabAndRemoveControlAttr(dom, AttrName(d));
      r := stack;
      if attr.Some? {
        var node := new IrNode(BuildAttrNode(d, attr.value), AttrPosition);
        DistinctSnoc(stack, node);
        r := stack + [node];
      } else {
        assert specs + [] == specs;
      }
    }

    /** The tag-form half of `create_control_nodes`: `make_control_node`
        for each tag-form directive in source order. */
    method TagFormNodes(dom: DomNode) returns (r: Result<seq<IrNode>>)
      ensures var spec := TagForm(controlPrefix, dom.tagName, dom.position, dom.attributes);
        && (r.Err? <==> spec.Err?)
        && (r.Err? ==> r.error == spec.error)
        && (r.Ok? ==> Pending(r.value, spec.value))
      ensures r.Ok? ==> fresh(Elements(r.value))
    {
      var stack: seq<IrNode> := [];
      ghost var specs: seq<NodeSpec> := [];
      for i := 0 to |TagDirectives|
        invariant TagChain(controlPrefix, dom.tagName, dom.position, dom.attributes, TagDirectives[..i]) == Ok(specs)
        invariant Pending(stack, specs)
        invariant fresh(Elements(stack))
      {
        var d := TagDirectives[i];
        TagChainStep(controlPrefix, dom.tagName, dom.position, dom.attributes, TagDirectives, i, specs);
        var step := MakeControlNode(dom, stack, specs, d);
        if step.Err? {
          TagChainErrStays(controlPrefix, dom.tagName, dom.position, dom.attributes, TagDirectives, i + 1);
          return Err(step.error);
        }
        specs := specs + TagOne(controlPrefix, dom.tagName, dom.position, dom.attributes, d).value;
        stack := step.value;
      }
      assert TagDirectives[..|TagDirectives|] == TagDirectives;
      return Ok(stack);
    }

    /** The attribute-form half of `create_control_nodes`:
        `make_control_node_of_attr` for each attribute-form directive in
        source order. */
    method AttrFormNodes(dom: DomNode, stack: seq<IrNode>, ghost specs: seq<NodeSpec>) returns (r: seq<IrNode>)
      requires dom.Valid() && Pending(stack, specs)
      modifies dom
      ensures dom.Valid()
      ensures Pending(r, specs + AttrForm(controlPrefix, old(dom.attributes)).0)
      ensures dom.attributes == AttrForm(controlPrefix, old(dom.attributes)).1
      ensures fresh(Elements(r) - Elements(stack))
    {
      ghost var a0 := dom.attributes;
      ghost var found: seq<NodeSpec> := [];
      r := stack;
      for i := 0 to |AttrDirectives|
        invariant dom.Valid()
        invariant AttrChain(controlPrefix, a0, AttrDirectives[..i]) == (found, dom.attributes)
        invariant Pending(r, specs + found)
        invariant fresh(Elements(r) - Elements(stack))
      {
        var d := AttrDirectives[i];
        AttrChainSnoc(controlPrefix, a0, AttrDirectives, i);
        ghost var added := AttrOne(controlPrefix, dom.attributes, d).0;
        r := MakeControlNodeOfAttr(dom, r, specs + found, d);
        assert specs + found + added == specs + (found + added);
        found := found + added;
      }
      assert AttrDirectives[..|AttrDirectives|] == AttrDirectives;
    }

    /** The linking loop of `create_control_nodes`: pops the working list and
        appends each popped node to the new last node. */
    method LinkChildren(stack: seq<IrNode>, ghost specs: seq<NodeSpec>)
      requires Pending(stack, specs) && stack != []
      modifies Elements(stack)
      ensures Shaped(stack, specs) && Linked(stack) && stack[|stack| - 1].children == []
    {
      ghost var chain := stack;
      var rest := stack;
      while |rest| > 0
        invariant |rest| <= |chain| && rest == chain[..|rest|]
        invariant Shaped(chain, specs)
        invariant forall i :: 0 <= i < |rest| - 1 ==> chain[i].children == []
        invariant forall i :: 0 <= i < |chain| - 1 && |rest| <= i + 1 ==> chain[i].children == [chain[i + 1]]
        invariant chain[|chain| - 1].children == []
        decreases |rest|
      {
        var current := rest[|rest| - 1];
        rest := rest[..|rest| - 1];
        if rest == [] {
          break;
        }
        ghost var k := |rest| - 1;
        forall i | 0 <= i < |chain| && i != k
          ensures chain[i] != chain[k]
        {
          assert NodeAt(chain, i) != NodeAt(chain, k);
        }
        rest[|rest| - 1].AddChild(current);
      }
    }

    /** `create_control_nodes`: finds the directives of the element, outermost
        first, and links each node to the next as its only child. */
    method CreateControlNodes(dom: DomNode) returns (r: Result<ControlOut>, ghost chain: seq<IrNode>)
      requires dom.Valid()
      modifies dom
      ensures dom.Valid()
      ensures var spec := ControlNodes(controlPrefix, dom.tagName, dom.position, old(dom.attributes));
        && (r.Err? <==> spec.Err?)
        && (r.Err? ==> r.error == spec.error && dom.attributes == old(dom.attributes))
        && (r.Ok? ==>
              && r.value.generateElement == spec.value.generateElement
              && dom.attributes == spec.value.rest
              && Shaped(chain, spec.value.chain)
              && Linked(chain)
              && (chain == [] ==> r.value == ControlOut(true, null, null))
              && (chain != [] ==> && r.value.top == chain[0]
                                  && r.value.bottom == chain[|chain| - 1]
                                  && chain[|chain| - 1].children == []))
      ensures fresh(Elements(chain))
      ensures r.Ok? && r.value.bottom != null ==> fresh(r.value.bottom)
      ensures Distinct(chain)
    {
      chain := [];
      ghost var tag, position, a0 := dom.tagName, dom.position, dom.attributes;
      var stack :- TagFormNodes(dom);
      ghost var tagSpecs := TagForm(controlPrefix, tag, position, a0).value;

      var generateElement := stack == [];

      stack := AttrFormNodes(dom, stack, tagSpecs);
      ghost var specs := ControlNodes(controlPrefix, tag, position, a0).value.chain;
      assert Pending(stack, specs);

      chain := stack;
      if stack == [] {
        return Ok(ControlOut(true, null, null)), chain;
      }
      var top := stack[0];
      var bottom := stack[|stack| - 1];
      assert bottom in Elements(stack);
      LinkChildren(stack, specs);
      return Ok(ControlOut(generateElement, top, bottom)), chain;
    }

    /** The attribute comprehension of `generate_attributes_for_node`: every
        attribute with its translatability in this scope. */
    method StaticAttributes(items: Attrs) returns (attrs: seq<StaticAttr>)
      ensures attrs == StaticAttrs(items, translatable)
    {
      attrs := [];
      for i := 0 to |items|
        invariant |attrs| == i
        invariant forall j :: 0 <= j < i ==>
          attrs[j] == StaticAttr(items[j].name, items[j].value, IsAttrTranslatable(translatable, items[j].name))
      {
        attrs := attrs + [StaticAttr(items[i].name, items[i].value, IsAttrTranslatable(translatable, items[i].name))];
      }
    }

    /** `generate_attributes_for_node`: consumes the prefixed `attrs`
        attribute as the dynamic-attributes expression and yields every
        remaining attribute, which the element is given. */
    method GenerateAttributesForNode(dom: DomNode) returns (attrs: seq<StaticAttr>, dynamicAttrs: Option<string>)
      requires dom.Valid()
      modifies dom
      ensures dom.Valid()
      ensures (dynamicAttrs, dom.attributes) == Grab(old(dom.attributes), controlPrefix + "attrs")
      ensures attrs == StaticAttrs(dom.attributes, translatable)
    {
      dynamicAttrs := GrabAndRemoveControlAttr(dom, "attrs");
      attrs := StaticAttributes(dom.attributes);
    }

    /** The replacement expression of `generate_element_node`: the mandatory
        `value` attribute of a replace tag (left in place), or the consumed
        prefixed `replace` attribute of any other element. */
    method GetReplace(dom: DomNode) returns (r: Result<Option<string>>)
      requires dom.Valid()
      modifies dom
      ensures dom.Valid()
      ensures var spec := ReplaceValue(controlPrefix, dom.tagName, dom.position, old(dom.attributes));
        && (r.Err? <==> spec.Err?)
        && (r.Err? ==> r.error == spec.error && dom.attributes == old(dom.attributes))
        && (r.Ok? ==> (r.value, dom.attributes) == spec.value)
    {
      if IsControlName(controlPrefix, dom.tagName, "replace") {
        var value := RequiredAttribute(dom.tagName, dom.position, dom.attributes, "value");
        if value.Err? {
          return Err(value.error);
        }
        return Ok(Some(value.value));
      }
      var replace := GrabAndRemoveControlAttr(dom, "replace");
      return Ok(replace);
    }

    /** The end of `generate_element_node`: the element (if any) becomes the
        child of the innermost directive node and the new innermost node,
        whose children are then overridden or generated unless a replacement
        forbids children. */
    method Splice(topmost: IrNode?, bottom: IrNode?, element: IrNode?, ghost elementSpec: NodeSpec,
                  addChildren: bool, overridden: seq<IrNode>, generated: seq<IrNode>,
                  ghost chain: seq<IrNode>, ghost specs: seq<NodeSpec>, ghost fill: Fill)
      returns (top: IrNode, childrenAdded: bool, ghost path: seq<IrNode>)
      requires Shaped(chain, specs) && Linked(chain) && Distinct(chain)
      requires chain == [] ==> topmost == null && bottom == null && element != null
      requires chain != [] ==> topmost == chain[0] && bottom == chain[|chain| - 1] && bottom.children == []
      requires element != null ==> && element !in chain && element.children == []
                                   && element.kind == elementSpec.kind && element.position == elementSpec.position
      requires |overridden| <= 1
      requires !addChildren ==> fill == NoChildren
      requires addChildren && overridden == [] ==> fill == Generated
      requires addChildren && overridden != [] ==>
        && fill.Override? && overridden[0].kind == Expression(fill.expression) && overridden[0].children == []
        && overridden[0] !in chain && overridden[0] != element
      modifies bottom, element
      ensures path == chain + (if element != null then [element] else [])
      ensures Shaped(path, specs + (if element != null then [elementSpec] else []))
      ensures Linked(path) && |path| > 0 && top == path[0]
      ensures childrenAdded == (addChildren && overridden == [])
      ensures Fills(path[|path| - 1], fill, generated)
    {
      path := chain;
      var last := bottom;
      if element != null {
        if last != null {
          last.AddChild(element);
        }
        last := element;
        path := chain + [element];
      }
      top := if topmost == null then element else topmost;
      childrenAdded := false;
      if addChildren {
        if overridden != [] {
          last.children := overridden;
        } else {
          // add_children(child_iter(dom_node), bottom)
          last.children := last.children + generated;
          childrenAdded := true;
        }
      }
    }

    /** The control attributes `generate_element_node` reads after the
        directives: the guard from `strip` (the constant `1` when blank), the
        overriding `content` expression, and the replacement. */
    method ElementControls(dom: DomNode)
      returns (guard: Option<string>, content: Option<string>, overridden: seq<IrNode>,
               replace: Result<Option<string>>)
      requires dom.Valid()
      modifies dom
      ensures dom.Valid()
      ensures var (strip, a1) := Grab(old(dom.attributes), controlPrefix + "strip");
              var (c, a2) := Grab(a1, controlPrefix + "content");
              var spec := ReplaceValue(controlPrefix, dom.tagName, dom.position, a2);
              && guard == NormalizeGuard(strip)
              && content == c
              && (replace.Err? <==> spec.Err?)
              && (replace.Err? ==> replace.error == spec.error)
              && (replace.Ok? ==> (replace.value, dom.attributes) == spec.value)
      ensures |overridden| <= 1
      ensures (overridden != []) == (FillOf(content).Override?)
      ensures overridden != [] ==> && overridden[0].kind == Expression(FillOf(content).expression)
                                   && overridden[0].children == [] && fresh(overridden[0])
    {
      guard := GetGuardExpression(dom);
      // on a blank strip value the guard is the constant "1"
      if guard.Some? && Strip(guard.value) == [] {
        guard := Some("1");
      }

      // the content control attribute replaces the children
      overridden := [];
      content := GrabAndRemoveControlAttr(dom, "content");
      if content.Some? && content.value != "" {
        var expression := new IrNode(Expression(content.value), None);
        overridden := [expression];
      }

      replace := GetReplace(dom);
    }

    /** The innermost new node of `generate_element_node`: the replacement
        expression, which takes no children, or the element itself with its
        attributes when no tag-form directive suppresses it. */
    method MakeElement(dom: DomNode, guard: Option<string>, replace: Option<string>, generateElement: bool)
      returns (element: IrNode?, addChildren: bool)
      requires dom.Valid()
      modifies dom
      ensures dom.Valid()
      ensures element != null ==> fresh(element) && element.children == [] && element.position == None
      ensures replace.Some? ==> && element != null && element.kind == Expression(replace.value)
                                && !addChildren && dom.attributes == old(dom.attributes)
      ensures replace.None? && generateElement ==>
        var (dynamicAttrs, rest) := Grab(old(dom.attributes), controlPrefix + "attrs");
        && element != null && addChildren && dom.attributes == rest
        && element.kind == Element(dom.tagName, guard, StaticAttrs(rest, translatable), dynamicAttrs)
      ensures replace.None? && !generateElement ==>
        element == null && addChildren && dom.attributes == old(dom.attributes)
    {
      addChildren := true;
      element := null;
      var generate := generateElement;
      if replace.Some? {
        element := new IrNode(Expression(replace.value), None);
        addChildren := false;
        generate := false;
      }
      if generate {
        var attrs, dynamicAttrs := GenerateAttributesForNode(dom);
        element := new IrNode(Element(dom.tagName, guard, attrs, dynamicAttrs), None);
      }
    }

    /** The second half of `generate_element_node`: makes the innermost new
        node, hangs it below the directive chain and fills its children. */
    method FinishElementNode(dom: DomNode, guard: Option<string>, replace: Option<string>, generateElement: bool,
                             topmost: IrNode?, bottom: IrNode?, overridden: seq<IrNode>, generated: seq<IrNode>,
                             ghost chain: seq<IrNode>, ghost specs: seq<NodeSpec>, ghost fill: Fill)
      returns (top: IrNode, childrenAdded: bool, ghost path: seq<IrNode>)
      requires dom.Valid()
      requires Shaped(chain, specs) && Linked(chain) && Distinct(chain)
      requires chain == [] ==> topmost == null && bottom == null && generateElement
      requires chain != [] ==> topmost == chain[0] && bottom == chain[|chain| - 1] && bottom.children == []
      requires |overridden| <= 1
      requires replace.Some? ==> fill == NoChildren
      requires replace.None? && overridden == [] ==> fill == Generated
      requires replace.None? && overridden != [] ==>
        && fill.Override? && overridden[0].kind == Expression(fill.expression) && overridden[0].children == []
        && overridden[0] !in chain
      modifies dom, bottom
      ensures dom.Valid()
      ensures Shaped(path, specs + Innermost(controlPrefix, translatable, dom.tagName, guard, replace,
                                             generateElement, old(dom.attributes)))
      ensures dom.attributes == Leftover(controlPrefix, replace, generateElement, old(dom.attributes))
      ensures Linked(path) && |path| > 0 && top == path[0]
      ensures childrenAdded == fill.Generated?
      ensures Fills(path[|path| - 1], fill, generated)
      ensures fresh(Elements(path) - Elements(chain))
      ensures Distinct(path)
    {
      ghost var attrs := dom.attributes;
      var element, addChildren := MakeElement(dom, guard, replace, generateElement);
      ghost var elementSpec := if element == null then NodeSpec(Root, None) else NodeSpec(element.kind, None);
      assert (if element != null then [elementSpec] else [])
          == Innermost(controlPrefix, translatable, dom.tagName, guard, replace, generateElement, attrs);
      top, childrenAdded, path := Splice(topmost, bottom, element, elementSpec, addChildren,
                                         overridden, generated, chain, specs, fill);
      if element != null {
        assert path == chain + [element];
        DistinctSnoc(chain, element);
        assert Elements(path) == Elements(chain) + {element};
      } else {
        assert path == chain;
      }
    }

    /** `generate_element_node`: the directive chain with the element, its
        replacement expression or nothing spliced in as the innermost node,
        whose children are then overridden, generated or left empty. */
    method GenerateElementNode(dom: DomNode, generated: seq<IrNode>)
      returns (r: Result<IrNode>, childrenAdded: bool, ghost path: seq<IrNode>)
      requires dom.Valid()
      modifies dom
      ensures dom.Valid()
      ensures var spec := ElementNode(controlPrefix, translatable, dom.tagName, dom.position, old(dom.attributes));
        && (r.Err? <==> spec.Err?)
        && (r.Err? ==> r.error == spec.error)
        && (r.Ok? ==> && Built(path, spec.value, generated)
                      && r.value == path[0]
                      && childrenAdded == spec.value.fill.Generated?
                      && dom.attributes == spec.value.rest)
      ensures fresh(Elements(path))
      ensures Distinct(path)
    {
      path := [];
      childrenAdded := false;
      ghost var tag, position, a0 := dom.tagName, dom.position, dom.attributes;
      var control, chain := CreateControlNodes(dom);
      if control.Err? {
        return Err(control.error), false, [];
      }
      ghost var c := ControlNodes(controlPrefix, tag, position, a0).value;
      ghost var a1 := dom.attributes;

      var guard, content, overridden, replace := ElementControls(dom);
      if replace.Err? {
        return Err(replace.error), false, [];
      }
      ghost var a2 := Keep(Keep(a1, {controlPrefix + "strip"}), {controlPrefix + "content"});
      ghost var a3 := dom.attributes;
      ghost var fill := if replace.value.Some? then NoChildren else FillOf(content);

      var top, added, p := FinishElementNode(dom, guard, replace.value, control.value.generateElement,
                                             control.value.top, control.value.bottom, overridden, generated,
                                             chain, c.chain, fill);
      path := p;
      return Ok(top), added, path;
    }

    /** `generate_ir_node`: dispatch on the source node's type. */
    method GenerateIrNode(node: DomNode, generated: seq<IrNode>)
      returns (r: Result<IrNode>, childrenAdded: bool, ghost path: seq<IrNode>)
      requires node.Valid()
      modifies node
      ensures node.Valid()
      ensures node.nodeType == ELEMENT_NODE ==>
        var spec := ElementNode(controlPrefix, translatable, node.tagName, node.position, old(node.attributes));
        && (r.Err? <==> spec.Err?)
        && (r.Err? ==> r.error == spec.error)
        && (r.Ok? ==> && Built(path, spec.value, generated)
                      && r.value == path[0]
                      && childrenAdded == spec.value.fill.Generated?
                      && node.attributes == spec.value.rest)
      ensures node.nodeType != ELEMENT_NODE ==>
        var spec := NonElementNode(node.nodeType, node.nodeValue, node.markup, node.position, isCdata, translatable);
        && node.attributes == old(node.attributes)
        && !childrenAdded
        && (r.Err? <==> spec.Err?)
        && (r.Err? ==> r.error == spec.error)
        && (r.Ok? ==> path == [r.value] && r.value.kind == spec.value && r.value.children == [])
      ensures fresh(Elements(path))
    {
      if node.nodeType == ELEMENT_NODE {
        r, childrenAdded, path := GenerateElementNode(node, generated);
        return;
      }
      childrenAdded := false;
      path := [];
      var kind := NonElementNode(node.nodeType, node.nodeValue, node.markup, node.position, isCdata, translatable);
      if kind.Err? {
        return Err(kind.error), false, path;
      }
      var irNode := new IrNode(kind.value, None);
      path := [irNode];
      r := Ok(irNode);
    }
  }
}
