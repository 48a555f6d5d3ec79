/** What the value-level description in module Directives means: which
    directives fire, in which order they nest, which attributes they consume
    and what is left, which errors arise, and what the element becomes. */
module DirectiveProperties {
  import opened Results
  import opened Text
  import opened Dom
  import opened Ir
  import opened Directives

  // ---------------------------------------------------------------------
  // Control names

  /** Prefixing is injective: two control names agree only for equal names. */
  lemma PrefixCancel(prefix: string, a: string, b: string)
    ensures prefix + a == prefix + b <==> a == b
  {
    if prefix + a == prefix + b {
      assert a == (prefix + a)[|prefix|..];
      assert b == (prefix + b)[|prefix|..];
    }
  }

  /** With a prefix ending in a colon, no control name equals a name without
      a colon: unprefixed attributes are never taken for control attributes. */
  lemma NotPrefixed(prefix: string, x: string, name: string)
    requires ValidPrefix(prefix)
    requires forall i :: 0 <= i < |name| ==> name[i] != ':'
    ensures prefix + x != name
  {
    if |name| == |prefix| + |x| {
      assert (prefix + x)[|prefix| - 1] == ':' != name[|prefix| - 1];
    }
  }

  /** A tag names at most one tag-form directive. */
  lemma ControlNameUnique(prefix: string, tag: string, d: TagDirective, e: TagDirective)
    requires IsControlName(prefix, tag, TagName(d)) && IsControlName(prefix, tag, TagName(e))
    ensures d == e
  {
    PrefixCancel(prefix, TagName(d), TagName(e));
  }

  // ---------------------------------------------------------------------
  // Tag-form directives

  predicate TagsDistinct(ds: seq<TagDirective>) {
    forall i, j :: 0 <= i < j < |ds| ==> ds[i] != ds[j]
  }

  /** The calls for a list of distinct directives, when the tag names `d`:
      only the call for `d` contributes, and what it contributes is all. */
  lemma {:induction false} TagChainMatch(prefix: string, tag: string, position: Option<Position>,
                                         attrs: Attrs, ds: seq<TagDirective>, d: TagDirective)
    requires TagsDistinct(ds)
    requires IsControlName(prefix, tag, TagName(d))
    ensures TagChain(prefix, tag, position, attrs, ds)
         == if d in ds then TagOne(prefix, tag, position, attrs, d) else Ok([])
  {
    if ds != [] {
      var init := ds[..|ds| - 1];
      var last := ds[|ds| - 1];
      assert TagsDistinct(init);
      TagChainMatch(prefix, tag, position, attrs, init, d);
      assert d in ds <==> d in init || d == last by {
        assert ds == init + [last];
      }
      if last != d {
        if IsControlName(prefix, tag, TagName(last)) {
          ControlNameUnique(prefix, tag, d, last);
        }
        assert TagOne(prefix, tag, position, attrs, last) == Ok([]);
        assert (d in ds) == (d in init);
        var before := TagChain(prefix, tag, position, attrs, init);
        if before.Ok? {
          assert before.value + [] == before.value;
        }
      } else {
        assert d !in init;
        var none: seq<NodeSpec> := [];
        assert TagChain(prefix, tag, position, attrs, init) == Ok(none);
        var one := TagOne(prefix, tag, position, attrs, d);
        if one.Ok? {
          assert none + one.value == one.value;
        }
      }
    }
  }

  /** The calls for any list of directives, when the tag names none of them:
      nothing is created. */
  lemma {:induction false} TagChainNone(prefix: string, tag: string, position: Option<Position>,
                                        attrs: Attrs, ds: seq<TagDirective>)
    requires forall d :: !IsControlName(prefix, tag, TagName(d))
    ensures TagChain(prefix, tag, position, attrs, ds) == Ok([])
  {
    if ds != [] {
      TagChainNone(prefix, tag, position, attrs, ds[..|ds| - 1]);
      assert !IsControlName(prefix, tag, TagName(ds[|ds| - 1]));
      assert TagOne(prefix, tag, position, attrs, ds[|ds| - 1]) == Ok([]);
      var none: seq<NodeSpec> := [];
      assert TagChain(prefix, tag, position, attrs, ds) == Ok(none + none);
      assert none + none == none;
    }
  }

  /** The tag names a tag-form directive: the outcome is exactly that
      directive's `make_control_node` call. */
  lemma TagFormSelects(prefix: string, tag: string, position: Option<Position>, attrs: Attrs,
                       d: TagDirective)
    requires IsControlName(prefix, tag, TagName(d))
    ensures TagForm(prefix, tag, position, attrs) == TagOne(prefix, tag, position, attrs, d)
  {
    assert d in TagDirectives by {
      match d
      case TagExtends => assert TagDirectives[0] == d;
      case TagBlock => assert TagDirectives[1] == d;
      case TagIf => assert TagDirectives[2] == d;
      case TagFor => assert TagDirectives[3] == d;
      case TagDef => assert TagDirectives[4] == d;
      case TagImport => assert TagDirectives[5] == d;
      case TagWith => assert TagDirectives[6] == d;
      case TagVars => assert TagDirectives[7] == d;
    }
    TagChainMatch(prefix, tag, position, attrs, TagDirectives, d);
  }

  /** The tag names no tag-form directive: nothing is created. */
  lemma TagFormNoMatch(prefix: string, tag: string, position: Option<Position>, attrs: Attrs)
    requires forall d :: !IsControlName(prefix, tag, TagName(d))
    ensures TagForm(prefix, tag, position, attrs) == Ok([])
  {
    TagChainNone(prefix, tag, position, attrs, TagDirectives);
  }

  /** At most one tag-form node is created, and one is created exactly when
      the tag is a tag-form control name; it is built from the directive's
      mandatory attributes and sits at the element's position. */
  lemma TagFormAtMostOne(prefix: string, tag: string, position: Option<Position>, attrs: Attrs)
    requires TagForm(prefix, tag, position, attrs).Ok?
    ensures var t := TagForm(prefix, tag, position, attrs).value;
      && |t| <= 1
      && (t != [] <==> exists d :: IsControlName(prefix, tag, TagName(d)))
      && forall d :: IsControlName(prefix, tag, TagName(d)) ==>
           var args := MandatoryArgs(tag, position, attrs, MandatoryOf(d));
           args.Ok? && t == [NodeSpec(BuildTagNode(d, args.value), position)]
  {
    if d :| IsControlName(prefix, tag, TagName(d)) {
      TagFormSelects(prefix, tag, position, attrs, d);
      forall e | IsControlName(prefix, tag, TagName(e))
        ensures var args := MandatoryArgs(tag, position, attrs, MandatoryOf(e));
          args.Ok? && TagForm(prefix, tag, position, attrs).value == [NodeSpec(BuildTagNode(e, args.value), position)]
      {
        ControlNameUnique(prefix, tag, d, e);
      }
    } else {
      TagFormNoMatch(prefix, tag, position, attrs);
    }
  }

  // ---------------------------------------------------------------------
  // Missing mandatory attributes

  /** The tag names directive `d` and its `k`-th mandatory attribute is the
      first one missing: the element is a syntax error naming the tag and
      that attribute, reported at the element's line (0 without a position). */
  lemma TagFormMissingAttribute(prefix: string, translatable: bool, tag: string,
                                position: Option<Position>, attrs: Attrs, d: TagDirective, k: nat)
    requires IsControlName(prefix, tag, TagName(d))
    requires k < |MandatoryOf(d)| && MandatoryOf(d)[k] !in Names(attrs)
    requires forall i :: 0 <= i < k ==> MandatoryOf(d)[i] in Names(attrs)
    ensures ElementNode(prefix, translatable, tag, position, attrs)
         == Err(SyntaxError(MissingAttributeMessage(tag, MandatoryOf(d)[k]), LineOf(position)))
  {
    TagFormSelects(prefix, tag, position, attrs, d);
    var names := MandatoryOf(d);
    var args := MandatoryArgs(tag, position, attrs, names);
    var j :| && 0 <= j < |names| && names[j] !in Names(attrs)
             && (forall i :: 0 <= i < j ==> names[i] in Names(attrs))
             && args.error == SyntaxError(MissingAttributeMessage(tag, names[j]), LineOf(position));
    assert j == k;
  }

  // ---------------------------------------------------------------------
  // Attribute-form directives

  /** The node the attribute-form directive `d` yields when the original
      attributes carry its prefixed name: none otherwise. */
  function AttrNode(prefix: string, attrs: Attrs, d: AttrDirective): seq<NodeSpec> {
    match Lookup(attrs, prefix + AttrName(d))
    case Some(v) => [NodeSpec(BuildAttrNode(d, v), AttrPosition)]
    case None => []
  }

  /** The nodes of the directives `ds`, in the order of `ds`. */
  function AttrNodes(prefix: string, attrs: Attrs, ds: seq<AttrDirective>): seq<NodeSpec> {
    if ds == [] then [] else AttrNodes(prefix, attrs, ds[..|ds| - 1]) + AttrNode(prefix, attrs, ds[|ds| - 1])
  }

  /** The prefixed names of the directives `ds`. */
  function AttrControlNames(prefix: string, ds: seq<AttrDirective>): set<string> {
    if ds == [] then {} else AttrControlNames(prefix, ds[..|ds| - 1]) + {prefix + AttrName(ds[|ds| - 1])}
  }

  predicate AttrNamesDistinct(ds: seq<AttrDirective>) {
    forall i, j :: 0 <= i < j < |ds| ==> AttrName(ds[i]) != AttrName(ds[j])
  }

  lemma {:induction false} AttrControlNamesAt(prefix: string, ds: seq<AttrDirective>, n: string)
    ensures n in AttrControlNames(prefix, ds) <==> exists i :: 0 <= i < |ds| && n == prefix + AttrName(ds[i])
  {
    if ds != [] {
      var init := ds[..|ds| - 1];
      AttrControlNamesAt(prefix, init, n);
      if n in AttrControlNames(prefix, init) {
        var i :| 0 <= i < |init| && n == prefix + AttrName(init[i]);
        assert ds[i] == init[i];
      }
      if exists i :: 0 <= i < |ds| && n == prefix + AttrName(ds[i]) {
        var i :| 0 <= i < |ds| && n == prefix + AttrName(ds[i]);
        if i < |init| {
          assert init[i] == ds[i];
        }
      }
    }
  }

  /** `make_control_node_of_attr` for distinct directives, one after the
      other, each on what the previous left: the same as each looking at the
      original attributes, with all of their names removed at the end. */
  lemma {:induction false} AttrChainReference(prefix: string, attrs: Attrs, ds: seq<AttrDirective>)
    requires AttrNamesDistinct(ds)
    ensures AttrChain(prefix, attrs, ds) == (AttrNodes(prefix, attrs, ds), Keep(attrs, AttrControlNames(prefix, ds)))
  {
    if ds != [] {
      var init := ds[..|ds| - 1];
      var last := ds[|ds| - 1];
      assert AttrNamesDistinct(init);
      AttrChainReference(prefix, attrs, init);
      var names := AttrControlNames(prefix, init);
      var n := prefix + AttrName(last);
      assert n !in names by {
        AttrControlNamesAt(prefix, init, n);
        if n in names {
          var i :| 0 <= i < |init| && n == prefix + AttrName(init[i]);
          PrefixCancel(prefix, AttrName(last), AttrName(init[i]));
          assert false;
        }
      }
      LookupKeep(attrs, names, n);
      KeepKeep(attrs, names, {n});
      var mid := Keep(attrs, names);
      assert AttrChain(prefix, attrs, init) == (AttrNodes(prefix, attrs, init), mid);
      assert AttrOne(prefix, mid, last) == (AttrNode(prefix, attrs, last), Keep(attrs, names + {n}));
      assert AttrControlNames(prefix, ds) == names + {n};
      assert AttrNodes(prefix, attrs, ds) == AttrNodes(prefix, attrs, init) + AttrNode(prefix, attrs, last);
      AttrChainSnoc(prefix, attrs, ds, |ds| - 1);
      assert ds[..|ds|] == ds;
    } else {
      KeepAbsent(attrs, {});
    }
  }

  /** The prefixed names of the six attribute-form directives. */
  function AttrControls(prefix: string): set<string> {
    { prefix + AttrName(AttrBlock), prefix + AttrName(AttrIf), prefix + AttrName(AttrFor),
      prefix + AttrName(AttrDef), prefix + AttrName(AttrWith), prefix + AttrName(AttrVars) }
  }

  lemma AttrNodesInOrder(prefix: string, attrs: Attrs)
    ensures AttrNodes(prefix, attrs, AttrDirectives)
         == AttrNode(prefix, attrs, AttrBlock) + AttrNode(prefix, attrs, AttrIf) + AttrNode(prefix, attrs, AttrFor)
            + AttrNode(prefix, attrs, AttrDef) + AttrNode(prefix, attrs, AttrWith) + AttrNode(prefix, attrs, AttrVars)
  {
    var p1 := [AttrBlock];
    var p2 := p1 + [AttrIf];
    var p3 := p2 + [AttrFor];
    var p4 := p3 + [AttrDef];
    var p5 := p4 + [AttrWith];
    var p6 := p5 + [AttrVars];
    var none: seq<NodeSpec> := [];
    assert AttrNodes(prefix, attrs, p1) == AttrNode(prefix, attrs, AttrBlock) by {
      assert p1[..0] == [];
      assert none + AttrNode(prefix, attrs, AttrBlock) == AttrNode(prefix, attrs, AttrBlock);
    }
    assert AttrNodes(prefix, attrs, p2) == AttrNodes(prefix, attrs, p1) + AttrNode(prefix, attrs, AttrIf) by {
      assert p2[..1] == p1;
    }
    assert AttrNodes(prefix, attrs, p3) == AttrNodes(prefix, attrs, p2) + AttrNode(prefix, attrs, AttrFor) by {
      assert p3[..2] == p2;
    }
    assert AttrNodes(prefix, attrs, p4) == AttrNodes(prefix, attrs, p3) + AttrNode(prefix, attrs, AttrDef) by {
      assert p4[..3] == p3;
    }
    assert AttrNodes(prefix, attrs, p5) == AttrNodes(prefix, attrs, p4) + AttrNode(prefix, attrs, AttrWith) by {
      assert p5[..4] == p4;
    }
    assert AttrNodes(prefix, attrs, p6) == AttrNodes(prefix, attrs, p5) + AttrNode(prefix, attrs, AttrVars) by {
      assert p6[..5] == p5;
    }
    assert p6 == AttrDirectives;
  }

  lemma AttrControlNamesAll(prefix: string)
    ensures AttrControlNames(prefix, AttrDirectives) == AttrControls(prefix)
  {
    var ds := AttrDirectives;
    assert AttrControlNames(prefix, ds[..1]) == {prefix + AttrName(AttrBlock)} by {
      assert ds[..1][..0] == [];
    }
    assert ds[..2][..1] == ds[..1] && ds[..3][..2] == ds[..2] && ds[..4][..3] == ds[..3];
    assert ds[..5][..4] == ds[..4] && ds[..5] == ds[..|ds| - 1];
    assert AttrControlNames(prefix, ds[..2]) == AttrControlNames(prefix, ds[..1]) + {prefix + AttrName(AttrIf)};
    assert AttrControlNames(prefix, ds[..3]) == AttrControlNames(prefix, ds[..2]) + {prefix + AttrName(AttrFor)};
    assert AttrControlNames(prefix, ds[..4]) == AttrControlNames(prefix, ds[..3]) + {prefix + AttrName(AttrDef)};
    assert AttrControlNames(prefix, ds[..5]) == AttrControlNames(prefix, ds[..4]) + {prefix + AttrName(AttrWith)};
  }

  /** The attribute-form checks create a node for each of block, if, for,
      def, with and vars present on the element, in that order, each made
      from the attribute's value as the element carried it. */
  lemma AttrFormNodes(prefix: string, attrs: Attrs)
    ensures AttrForm(prefix, attrs).0
         == AttrNode(prefix, attrs, AttrBlock) + AttrNode(prefix, attrs, AttrIf) + AttrNode(prefix, attrs, AttrFor)
            + AttrNode(prefix, attrs, AttrDef) + AttrNode(prefix, attrs, AttrWith) + AttrNode(prefix, attrs, AttrVars)
  {
    assert AttrNamesDistinct(AttrDirectives);
    AttrChainReference(prefix, attrs, AttrDirectives);
    AttrNodesInOrder(prefix, attrs);
  }

  /** The attribute-form checks remove the six prefixed names and nothing
      else, keeping the order of what is left. */
  lemma AttrFormRest(prefix: string, attrs: Attrs)
    ensures AttrForm(prefix, attrs).1 == Keep(attrs, AttrControls(prefix))
  {
    assert AttrNamesDistinct(AttrDirectives);
    AttrChainReference(prefix, attrs, AttrDirectives);
    AttrControlNamesAll(prefix);
  }

  /** A directive whose prefixed attribute is present yields one node made
      from the attribute's value. */
  lemma AttrNodeOf(prefix: string, attrs: Attrs, d: AttrDirective, v: string)
    requires Lookup(attrs, prefix + AttrName(d)) == Some(v)
    ensures AttrNode(prefix, attrs, d) == [NodeSpec(BuildAttrNode(d, v), AttrPosition)]
  {
  }

  /** Prefixed `with` and `vars` attributes together give two nested `With`
      nodes, `with` outside, as the innermost two of the chain. */
  lemma WithAndVarsNest(prefix: string, attrs: Attrs, w: string, v: string)
    requires Lookup(attrs, prefix + AttrName(AttrWith)) == Some(w)
    requires Lookup(attrs, prefix + AttrName(AttrVars)) == Some(v)
    ensures var nodes := AttrForm(prefix, attrs).0;
      |nodes| >= 2 && nodes[|nodes| - 2..] == [NodeSpec(With(w), AttrPosition), NodeSpec(With(v), AttrPosition)]
  {
    var x, y := NodeSpec(With(w), AttrPosition), NodeSpec(With(v), AttrPosition);
    AttrNodeOf(prefix, attrs, AttrWith, w);
    AttrNodeOf(prefix, attrs, AttrVars, v);
    assert AttrNode(prefix, attrs, AttrWith) == [x];
    assert AttrNode(prefix, attrs, AttrVars) == [y];
    var outer := AttrNode(prefix, attrs, AttrBlock) + AttrNode(prefix, attrs, AttrIf)
                 + AttrNode(prefix, attrs, AttrFor) + AttrNode(prefix, attrs, AttrDef);
    AttrFormNodes(prefix, attrs);
    var nodes := AttrForm(prefix, attrs).0;
    assert nodes == outer + [x] + [y];
    LastTwo(outer, x, y);
  }

  lemma LastTwo<T>(s: seq<T>, x: T, y: T)
    ensures var t := s + [x] + [y]; |t| >= 2 && t[|t| - 2..] == [x, y]
  {
  }

  // ---------------------------------------------------------------------
  // The directive chain of `create_control_nodes`

  /** Every node is a directive (never an element or an expression). */
  predicate AllDirectives(specs: seq<NodeSpec>) {
    forall i :: 0 <= i < |specs| ==> IsDirective(specs[i].kind)
  }

  lemma BuildTagNodeDirective(d: TagDirective, args: seq<string>)
    requires |args| == |MandatoryOf(d)|
    ensures IsDirective(BuildTagNode(d, args))
  {
  }

  /** The tag-form checks create at most one node, and it is a directive. */
  lemma TagFormShape(prefix: string, tag: string, position: Option<Position>, attrs: Attrs)
    requires TagForm(prefix, tag, position, attrs).Ok?
    ensures |TagForm(prefix, tag, position, attrs).value| <= 1
    ensures AllDirectives(TagForm(prefix, tag, position, attrs).value)
  {
    if d :| IsControlName(prefix, tag, TagName(d)) {
      TagFormSelects(prefix, tag, position, attrs, d);
      var args := MandatoryArgs(tag, position, attrs, MandatoryOf(d));
      BuildTagNodeDirective(d, args.value);
    } else {
      TagFormNoMatch(prefix, tag, position, attrs);
    }
  }

  lemma AllDirectivesConcat(a: seq<NodeSpec>, b: seq<NodeSpec>)
    requires AllDirectives(a) && AllDirectives(b)
    ensures AllDirectives(a + b)
  {
  }

  lemma {:induction false} AttrChainDirectives(prefix: string, attrs: Attrs, ds: seq<AttrDirective>)
    ensures AllDirectives(AttrChain(prefix, attrs, ds).0)
  {
    if ds != [] {
      AttrChainDirectives(prefix, attrs, ds[..|ds| - 1]);
    }
  }

  /** `create_control_nodes`: the tag-form node, if any, comes first and
      decides alone whether the element is generated; the attribute-form
      nodes follow in the order block, if, for, def, with, vars; only the six
      attribute-form names are removed; every node is a directive. */
  lemma ControlChain(prefix: string, tag: string, position: Option<Position>, attrs: Attrs)
    requires ControlNodes(prefix, tag, position, attrs).Ok?
    ensures var c := ControlNodes(prefix, tag, position, attrs).value;
      var t := TagForm(prefix, tag, position, attrs).value;
      && |t| <= 1
      && c.generateElement == (t == [])
      && c.chain == t + (AttrNode(prefix, attrs, AttrBlock) + AttrNode(prefix, attrs, AttrIf)
                         + AttrNode(prefix, attrs, AttrFor) + AttrNode(prefix, attrs, AttrDef)
                         + AttrNode(prefix, attrs, AttrWith) + AttrNode(prefix, attrs, AttrVars))
      && c.rest == Keep(attrs, AttrControls(prefix))
      && AllDirectives(c.chain)
  {
    var t := TagForm(prefix, tag, position, attrs).value;
    var (a, rest) := AttrForm(prefix, attrs);
    assert ControlNodes(prefix, tag, position, attrs).value == Control(t == [], t + a, rest);
    TagFormShape(prefix, tag, position, attrs);
    AttrFormNodes(prefix, attrs);
    AttrFormRest(prefix, attrs);
    AttrChainDirectives(prefix, attrs, AttrDirectives);
    AllDirectivesConcat(t, a);
  }

  /** Dropping names no attribute carries changes nothing. */
  lemma {:induction false} KeepNoneDropped(a: Attrs, drop: set<string>)
    requires forall i :: 0 <= i < |a| ==> a[i].name !in drop
    ensures Keep(a, drop) == a
  {
    if a != [] {
      KeepNoneDropped(a[1..], drop);
    }
  }

  /** With no directive in the tag or the attributes, `create_control_nodes`
      returns `(True, None, None)` and leaves the attributes alone. */
  lemma NoDirectives(prefix: string, tag: string, position: Option<Position>, attrs: Attrs)
    requires forall d :: !IsControlName(prefix, tag, TagName(d))
    requires forall i :: 0 <= i < |attrs| ==> attrs[i].name !in AttrControls(prefix)
    ensures ControlNodes(prefix, tag, position, attrs) == Ok(Control(true, [], attrs))
  {
    TagFormNoMatch(prefix, tag, position, attrs);
    forall d | true ensures AttrNode(prefix, attrs, d) == [] {
      assert Lookup(attrs, prefix + AttrName(d)).None?;
    }
    AttrFormNodes(prefix, attrs);
    AttrFormRest(prefix, attrs);
    KeepNoneDropped(attrs, AttrControls(prefix));
  }

  // ---------------------------------------------------------------------
  // The element: `generate_element_node`

  /** The prefixed names consumed before the replacement is looked for:
      the six directive names, then `strip` and `content`. */
  function BeforeReplace(prefix: string): set<string> {
    AttrControls(prefix) + {prefix + "strip"} + {prefix + "content"}
  }

  /** Every prefixed name consumed on the way to an emitted element. */
  function Consumed(prefix: string): set<string> {
    BeforeReplace(prefix) + {prefix + "replace"} + {prefix + "attrs"}
  }

  /** A name other than the six directive names, once prefixed, is not one
      of the prefixed directive names. */
  lemma NotAttrControl(prefix: string, x: string)
    requires forall d :: AttrName(d) != x
    ensures prefix + x !in AttrControls(prefix)
  {
    PrefixCancel(prefix, x, AttrName(AttrBlock));
    PrefixCancel(prefix, x, AttrName(AttrIf));
    PrefixCancel(prefix, x, AttrName(AttrFor));
    PrefixCancel(prefix, x, AttrName(AttrDef));
    PrefixCancel(prefix, x, AttrName(AttrWith));
    PrefixCancel(prefix, x, AttrName(AttrVars));
  }

  /** Each element-level control name differs from the names consumed
      before it. */
  lemma ElementControlsDistinct(prefix: string)
    ensures prefix + "strip" !in AttrControls(prefix)
    ensures prefix + "content" !in AttrControls(prefix) + {prefix + "strip"}
    ensures prefix + "replace" !in BeforeReplace(prefix)
    ensures prefix + "attrs" !in BeforeReplace(prefix) + {prefix + "replace"}
  {
    NotAttrControl(prefix, "strip");
    NotAttrControl(prefix, "content");
    NotAttrControl(prefix, "replace");
    NotAttrControl(prefix, "attrs");
    PrefixCancel(prefix, "content", "strip");
    PrefixCancel(prefix, "replace", "strip");
    PrefixCancel(prefix, "replace", "content");
    PrefixCancel(prefix, "attrs", "strip");
    PrefixCancel(prefix, "attrs", "content");
    PrefixCancel(prefix, "attrs", "replace");
  }

  /** For any tag but the replace tag, `generate_element_node` reads `strip`,
      `content` and `replace` straight from the source attributes, and the
      innermost node sees the attributes with every name consumed so far
      removed. */
  lemma ElementNodeReference(prefix: string, translatable: bool, tag: string,
                             position: Option<Position>, attrs: Attrs)
    requires !IsControlName(prefix, tag, "replace")
    requires TagForm(prefix, tag, position, attrs).Ok?
    ensures var t := TagForm(prefix, tag, position, attrs).value;
            var replace := Lookup(attrs, prefix + "replace");
            var left := Keep(attrs, BeforeReplace(prefix) + {prefix + "replace"});
            ElementNode(prefix, translatable, tag, position, attrs)
            == Ok(Synthesis(t + AttrForm(prefix, attrs).0
                              + Innermost(prefix, translatable, tag,
                                          NormalizeGuard(Lookup(attrs, prefix + "strip")),
                                          replace, t == [], left),
                            if replace.Some? then NoChildren
                            else FillOf(Lookup(attrs, prefix + "content")),
                            Leftover(prefix, replace, t == [], left)))
  {
    var ac := AttrControls(prefix);
    var s1 := ac + {prefix + "strip"};
    var s2 := s1 + {prefix + "content"};
    AttrFormRest(prefix, attrs);
    ElementControlsDistinct(prefix);
    LookupKeep(attrs, ac, prefix + "strip");
    KeepKeep(attrs, ac, {prefix + "strip"});
    LookupKeep(attrs, s1, prefix + "content");
    KeepKeep(attrs, s1, {prefix + "content"});
    LookupKeep(attrs, s2, prefix + "replace");
    KeepKeep(attrs, s2, {prefix + "replace"});
  }

  /** With no tag-form directive and no replacement, the element itself is
      emitted innermost, guarded by its normalised `strip` value, with the
      `attrs` value as its dynamic attributes and every consumed name
      removed from its static ones; its own children are generated unless
      `content` overrides them. */
  lemma ElementEmitted(prefix: string, translatable: bool, tag: string,
                       position: Option<Position>, attrs: Attrs)
    requires TagForm(prefix, tag, position, attrs) == Ok([])
    requires !IsControlName(prefix, tag, "replace")
    requires prefix + "replace" !in Names(attrs)
    ensures ElementNode(prefix, translatable, tag, position, attrs)
            == Ok(Synthesis(AttrForm(prefix, attrs).0
                              + [NodeSpec(Element(tag, NormalizeGuard(Lookup(attrs, prefix + "strip")),
                                                  StaticAttrs(Keep(attrs, Consumed(prefix)), translatable),
                                                  Lookup(attrs, prefix + "attrs")), None)],
                            FillOf(Lookup(attrs, prefix + "content")),
                            Keep(attrs, Consumed(prefix))))
  {
    ElementNodeReference(prefix, translatable, tag, position, attrs);
    var br := BeforeReplace(prefix) + {prefix + "replace"};
    ElementControlsDistinct(prefix);
    LookupKeep(attrs, br, prefix + "attrs");
    KeepKeep(attrs, br, {prefix + "attrs"});
    var none: seq<NodeSpec> := [];
    assert none + AttrForm(prefix, attrs).0 == AttrForm(prefix, attrs).0;
  }

  /** An attribute survives `Keep` exactly when it was there and its name is
      not dropped. */
  lemma {:induction false} KeepMembers(a: Attrs, drop: set<string>, x: Attr)
    ensures x in Keep(a, drop) <==> x in a && x.name !in drop
  {
    if a != [] {
      KeepMembers(a[1..], drop, x);
      assert x in a <==> x == a[0] || x in a[1..] by { assert a == [a[0]] + a[1..]; }
    }
  }

  /** Nothing leaks into the output element: its static attributes are
      exactly the source attributes whose names were not consumed, each with
      its value and the translation flag of its name. */
  lemma NothingLeaks(prefix: string, translatable: bool, attrs: Attrs)
    ensures var out := StaticAttrs(Keep(attrs, Consumed(prefix)), translatable);
            forall name: string, value: string ::
              StaticAttr(name, value, IsAttrTranslatable(translatable, name)) in out
              <==> Attr(name, value) in attrs && name !in Consumed(prefix)
  {
    var kept := Keep(attrs, Consumed(prefix));
    var out := StaticAttrs(kept, translatable);
    forall name: string, value: string
      ensures StaticAttr(name, value, IsAttrTranslatable(translatable, name)) in out
              <==> Attr(name, value) in attrs && name !in Consumed(prefix)
    {
      var a := Attr(name, value);
      var o := StaticAttr(name, value, IsAttrTranslatable(translatable, name));
      KeepMembers(attrs, Consumed(prefix), a);
      if a in kept {
        var i :| 0 <= i < |kept| && kept[i] == a;
        assert out[i] == o;
      }
      if o in out {
        var i :| 0 <= i < |out| && out[i] == o;
        assert kept[i] == a;
      }
    }
  }

  /** Every node the directive checks discover, in either form, is a
      directive. */
  lemma DiscoveredDirectives(prefix: string, tag: string, position: Option<Position>, attrs: Attrs)
    requires TagForm(prefix, tag, position, attrs).Ok?
    ensures AllDirectives(TagForm(prefix, tag, position, attrs).value + AttrForm(prefix, attrs).0)
  {
    TagFormShape(prefix, tag, position, attrs);
    AttrChainDirectives(prefix, attrs, AttrDirectives);
    AllDirectivesConcat(TagForm(prefix, tag, position, attrs).value, AttrForm(prefix, attrs).0);
  }

  /** No node in `t + a + inner` is an element when `t + a` are directives
      and `inner` holds at most an expression. */
  lemma NoElementIn(ta: seq<NodeSpec>, inner: seq<NodeSpec>)
    requires AllDirectives(ta)
    requires forall i :: 0 <= i < |inner| ==> inner[i].kind.Expression?
    ensures forall i :: 0 <= i < |ta + inner| ==> !(ta + inner)[i].kind.Element?
  {
  }

  /** A tag-form directive suppresses the element: its node is outermost,
      no element is emitted at all, and the `strip` attribute is dropped
      without effect. */
  lemma TagFormSuppressesElement(prefix: string, translatable: bool, tag: string,
                                 position: Option<Position>, attrs: Attrs, d: TagDirective)
    requires IsControlName(prefix, tag, TagName(d))
    requires TagForm(prefix, tag, position, attrs).Ok?
    ensures ElementNode(prefix, translatable, tag, position, attrs).Ok?
    ensures var t := TagForm(prefix, tag, position, attrs).value;
            var s := ElementNode(prefix, translatable, tag, position, attrs).value;
            && |t| == 1 && |s.path| > 0 && s.path[0] == t[0]
            && (forall i :: 0 <= i < |s.path| ==> !s.path[i].kind.Element?)
            && prefix + "strip" !in Names(s.rest)
  {
    PrefixCancel(prefix, TagName(d), "replace");
    TagFormSelects(prefix, tag, position, attrs, d);
    ElementNodeReference(prefix, translatable, tag, position, attrs);
    DiscoveredDirectives(prefix, tag, position, attrs);
    var t := TagForm(prefix, tag, position, attrs).value;
    var ta := t + AttrForm(prefix, attrs).0;
    var replace := Lookup(attrs, prefix + "replace");
    var left := Keep(attrs, BeforeReplace(prefix) + {prefix + "replace"});
    var inner := Innermost(prefix, translatable, tag, NormalizeGuard(Lookup(attrs, prefix + "strip")),
                           replace, false, left);
    assert ElementNode(prefix, translatable, tag, position, attrs).value
        == Synthesis(ta + inner, if replace.Some? then NoChildren
                                 else FillOf(Lookup(attrs, prefix + "content")), left);
    NoElementIn(ta, inner);
    assert (ta + inner)[0] == t[0];
  }

  /** Without a replacement, a non-empty `content` value overrides the
      children and an absent or empty one leaves them generated; either way
      the `content` attribute is gone. */
  lemma ContentFill(prefix: string, translatable: bool, tag: string,
                    position: Option<Position>, attrs: Attrs)
    requires !IsControlName(prefix, tag, "replace")
    requires prefix + "replace" !in Names(attrs)
    requires TagForm(prefix, tag, position, attrs).Ok?
    ensures ElementNode(prefix, translatable, tag, position, attrs).Ok?
    ensures var s := ElementNode(prefix, translatable, tag, position, attrs).value;
            var content := Lookup(attrs, prefix + "content");
            && (content.Some? && content.value != "" ==> s.fill == Override(content.value))
            && (content.None? || content.value == "" ==> s.fill == Generated)
            && prefix + "content" !in Names(s.rest)
  {
    ElementNodeReference(prefix, translatable, tag, position, attrs);
  }

  /** A `replace` attribute puts one expression where the element would have
      been: no element is emitted, `content` is discarded and no children
      are added. */
  lemma ReplaceAttribute(prefix: string, translatable: bool, tag: string,
                         position: Option<Position>, attrs: Attrs, r: string)
    requires !IsControlName(prefix, tag, "replace")
    requires TagForm(prefix, tag, position, attrs).Ok?
    requires Lookup(attrs, prefix + "replace") == Some(r)
    ensures ElementNode(prefix, translatable, tag, position, attrs)
            == Ok(Synthesis(TagForm(prefix, tag, position, attrs).value + AttrForm(prefix, attrs).0
                              + [NodeSpec(Expression(r), None)],
                            NoChildren,
                            Keep(attrs, BeforeReplace(prefix) + {prefix + "replace"})))
    ensures var path := ElementNode(prefix, translatable, tag, position, attrs).value.path;
            forall i :: 0 <= i < |path| ==> !path[i].kind.Element?
  {
    ElementNodeReference(prefix, translatable, tag, position, attrs);
    DiscoveredDirectives(prefix, tag, position, attrs);
    NoElementIn(TagForm(prefix, tag, position, attrs).value + AttrForm(prefix, attrs).0,
                [NodeSpec(Expression(r), None)]);
  }

  /** The replace tag is no tag-form directive. */
  lemma ReplaceTagNoTagForm(prefix: string, tag: string)
    requires IsControlName(prefix, tag, "replace")
    ensures forall d :: !IsControlName(prefix, tag, TagName(d))
  {
    forall d ensures !IsControlName(prefix, tag, TagName(d)) {
      PrefixCancel(prefix, TagName(d), "replace");
    }
  }

  /** The unprefixed `value` is none of the prefixed control names. */
  lemma ValueNotConsumed(prefix: string)
    requires ValidPrefix(prefix)
    ensures "value" !in BeforeReplace(prefix)
  {
    forall x: string ensures prefix + x != "value" {
      NotPrefixed(prefix, x, "value");
    }
  }

  /** The replace tag is replaced by the expression in its mandatory
      unprefixed `value` attribute, with no element and no children; without
      that attribute it is a syntax error naming the tag and `value`. */
  lemma ReplaceTag(prefix: string, translatable: bool, tag: string,
                   position: Option<Position>, attrs: Attrs)
    requires ValidPrefix(prefix)
    requires IsControlName(prefix, tag, "replace")
    ensures ElementNode(prefix, translatable, tag, position, attrs)
            == if "value" in Names(attrs) then
                 Ok(Synthesis(AttrForm(prefix, attrs).0
                                + [NodeSpec(Expression(Lookup(attrs, "value").value), None)],
                              NoChildren, Keep(attrs, BeforeReplace(prefix))))
               else
                 Err(SyntaxError(MissingAttributeMessage(tag, "value"), LineOf(position)))
  {
    ReplaceTagNoTagForm(prefix, tag);
    TagFormNoMatch(prefix, tag, position, attrs);
    AttrFormRest(prefix, attrs);
    var ac := AttrControls(prefix);
    KeepKeep(attrs, ac, {prefix + "strip"});
    KeepKeep(attrs, ac + {prefix + "strip"}, {prefix + "content"});
    ValueNotConsumed(prefix);
    LookupKeep(attrs, BeforeReplace(prefix), "value");
    var none: seq<NodeSpec> := [];
    assert none + AttrForm(prefix, attrs).0 == AttrForm(prefix, attrs).0;
  }

  /** Some node of the path is an element. */
  predicate EmitsElement(path: seq<NodeSpec>) {
    exists i :: 0 <= i < |path| && path[i].kind.Element?
  }

  /** `generate_element_node` emits the element exactly when no tag-form
      directive matched and nothing asked for a replacement: neither the
      replace tag nor a `replace` attribute. */
  lemma ElementEmittedIff(prefix: string, translatable: bool, tag: string,
                          position: Option<Position>, attrs: Attrs)
    requires ElementNode(prefix, translatable, tag, position, attrs).Ok?
    ensures EmitsElement(ElementNode(prefix, translatable, tag, position, attrs).value.path)
            <==> && TagForm(prefix, tag, position, attrs) == Ok([])
                 && !IsControlName(prefix, tag, "replace")
                 && prefix + "replace" !in Names(attrs)
  {
    var path := ElementNode(prefix, translatable, tag, position, attrs).value.path;
    var t := TagForm(prefix, tag, position, attrs).value;
    var ta := t + AttrForm(prefix, attrs).0;
    DiscoveredDirectives(prefix, tag, position, attrs);
    if IsControlName(prefix, tag, "replace") {
      var c := ControlNodes(prefix, tag, position, attrs).value;
      var (strip, a1) := Grab(c.rest, prefix + "strip");
      var (content, a2) := Grab(a1, prefix + "content");
      var v := RequiredAttribute(tag, position, a2, "value").value;
      var inner := [NodeSpec(Expression(v), None)];
      assert path == ta + inner;
      NoElementIn(ta, inner);
    } else {
      ElementNodeReference(prefix, translatable, tag, position, attrs);
      var replace := Lookup(attrs, prefix + "replace");
      var left := Keep(attrs, BeforeReplace(prefix) + {prefix + "replace"});
      var inner := Innermost(prefix, translatable, tag, NormalizeGuard(Lookup(attrs, prefix + "strip")),
                             replace, t == [], left);
      assert path == ta + inner;
      if t == [] && replace.None? {
        assert path[|ta|] == inner[0];
      } else {
        NoElementIn(ta, inner);
      }
    }
  }

  /** The missing-attribute message names the tag, in angle brackets, and
      the attribute, in quotes at its end. */
  lemma MissingMessageNames(tag: string, name: string)
    ensures var m := MissingAttributeMessage(tag, name);
            && |m| > |tag| + |name| + 2
            && m[..1] == "<" && m[1..|tag| + 1] == tag && m[|tag| + 1] == '>'
            && m[|m| - |name| - 2] == '\'' && m[|m| - |name| - 1..|m| - 1] == name && m[|m| - 1] == '\''
  {
    var rest := "> does not have the required attribute '";
    var m := "<" + tag + rest + name + "'";
    assert m == MissingAttributeMessage(tag, name);
    assert |rest| == 40 && rest[0] == '>' && rest[39] == '\'';
    assert |m| == |tag| + |name| + 42;
    assert m[..1] == "<";
    assert m[1..|tag| + 1] == tag;
    assert m[|tag| + 1] == rest[0];
    assert m[|m| - |name| - 2] == rest[39];
    assert m[|m| - |name| - 1..|m| - 1] == name;
    assert m[|m| - 1] == '\'';
  }

  // ---------------------------------------------------------------------
  // Dispatch on the node type: `generate_ir_node`

  /** A comment is emitted verbatim as escaped markup: its text wrapped in
      the comment delimiters, and never read as an expression. */
  lemma CommentEscaped(value: string, markup: string, position: Option<Position>,
                       isCdata: bool, translatable: bool)
    ensures var r := NonElementNode(COMMENT_NODE, value, markup, position, isCdata, translatable);
            && r.Ok? && r.value.EscapedText?
            && var m := r.value.markup;
               && |m| == |value| + 7
               && m[..4] == "<!--" && m[4..|m| - 3] == value && m[|m| - 3..] == "-->"
  {
    var m := "<!--" + value + "-->";
    assert m[..4] == "<!--";
    assert m[4..|m| - 3] == value;
    assert m[|m| - 3..] == "-->";
  }

  /** A processing instruction becomes code: its data with the surrounding
      whitespace removed, which stripping again leaves unchanged. */
  lemma InstructionStripped(value: string, markup: string, position: Option<Position>,
                            isCdata: bool, translatable: bool)
    ensures var r := NonElementNode(PROCESSING_INSTRUCTION_NODE, value, markup, position, isCdata, translatable);
            && r.Ok? && r.value.Code?
            && Strip(r.value.code) == r.value.code
            && exists i, j :: 0 <= i <= j <= |value| && r.value.code == value[i..j]
                              && AllWhitespace(value[..i]) && AllWhitespace(value[j..])
  {
    assert NonElementNode(PROCESSING_INSTRUCTION_NODE, value, markup, position, isCdata, translatable)
        == Ok(Code(Strip(value)));
    StripIdempotent(value);
    StripSlice(value);
  }

  /** Every node type the generator does not handle is a syntax error at the
      node's line whose message ends in the type's decimal number. */
  lemma UnhandledNodeType(nodeType: nat, value: string, markup: string, position: Option<Position>,
                          isCdata: bool, translatable: bool)
    requires nodeType !in {ELEMENT_NODE, TEXT_NODE, COMMENT_NODE, PROCESSING_INSTRUCTION_NODE, DOCUMENT_TYPE_NODE}
    ensures var r := NonElementNode(nodeType, value, markup, position, isCdata, translatable);
            && r.Err? && r.error.lineno == LineOf(position)
            && var m := r.error.message;
               && |m| > 20 && m[..20] == "Unhandled node type "
               && IsDecimal(m[20..]) && DecimalValue(m[20..]) == nodeType
  {
    var digits := NatToString(nodeType);
    var m := "Unhandled node type " + digits;
    assert m[..20] == "Unhandled node type ";
    assert m[20..] == digits;
    DecimalRoundTrip(nodeType);
  }

  /** The handled node types besides element, comment and processing
      instruction: text goes to the expression scanner with the generator's
      flags, a document type is emitted as its own markup. */
  lemma TextAndDocumentType(value: string, markup: string, position: Option<Position>,
                            isCdata: bool, translatable: bool)
    ensures NonElementNode(TEXT_NODE, value, markup, position, isCdata, translatable).Ok?
    ensures NonElementNode(DOCUMENT_TYPE_NODE, value, markup, position, isCdata, translatable).Ok?
    ensures var k := NonElementNode(TEXT_NODE, value, markup, position, isCdata, translatable).value;
            k.Scanned? && k.source == value && k.isCdata == isCdata && k.translatable == translatable
    ensures NonElementNode(DOCUMENT_TYPE_NODE, value, markup, position, isCdata, translatable).value
            == EscapedText(markup)
  {
  }
}
