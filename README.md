# Tonnikala template directives, modelled in Dafny

Tonnikala compiles XML/HTML templates. Its `TonnikalaIRGenerator` walks a minidom
tree and emits an intermediate representation (IR). Control directives are
spelled as prefixed tags (`<py:if test="…">`) or as prefixed attributes
(`<div py:if="…">`). The default prefix is `py:`, and the constructor can
configure another one, to which it appends a colon.

For one source element the generator does the following:
- It nests the directive nodes, outermost first: at most one tag-form
  directive, then the attribute forms `block`, `if`, `for`, `def`, `with` and
  `vars`.
- It consumes the prefixed `strip`, `content`, `replace` and `attrs`
  attributes.
- Innermost, it emits the element itself, a replacement expression, or
  nothing.
- It fills the children of the innermost node: generated from the source,
  overridden by a `content` expression, or none.

Comments, processing instructions, text and document types get one node each.
Any other node type is a syntax error.

The project has three layers:
1. `directives.dfy` states, on values, what the generator computes for one
   node. `ControlNodes` is `create_control_nodes`. `ElementNode` is
   `generate_element_node`. `NonElementNode` is the other branches of
   `generate_ir_node`.
2. `generator.dfy` is the generator as a class. Its methods remove attributes
   from a `DomNode` object in place, allocate `IrNode` objects and link their
   child lists. Each method is proved to build exactly what the value layer
   describes: same nodes in the same nesting, same innermost children, same
   attributes left, same error.
3. `properties.dfy` proves what the value layer means. It covers:
   - when a directive is recognised, and that at most one tag form matches
   - the error for a missing mandatory attribute
   - the nesting order of the attribute forms
   - that no control attribute leaks into the element's output attributes
   - the guard, `content` and `replace` behaviour
   - exactly when the element itself is emitted
   - the handling of the other node types

The supporting modules are:
- `results.dfy`: `Option`, `Result` and the syntax error.
- `text.dfy`: Python's `str.strip()` and `%d`.
- `dom.dfy`: minidom's attribute list and its operations.
- `ir.dfy`: the IR node kinds and the `IrNode` class.

## Model

| member | source | states |
|---|---|---|
| Directives.PrefixFor | tonnikala/syntaxes/tonnikala.py:31-33 | the installed control prefix always ends in a colon; a configured prefix is kept in front of that colon, and without one the class default `py:` is used |
| Directives.IsAttrTranslatable | tonnikala/syntaxes/tonnikala.py:226-227 | an attribute is translatable exactly when the scope's flag is set and its name is `title`, `alt` or `placeholder` |
| Directives.RequiredAttribute | tonnikala/syntaxes/tonnikala.py:83-89 | succeeds exactly when the unprefixed attribute is present, with its value; otherwise it is a syntax error naming the tag and the attribute, reported at the node's line (or 0 without a position) |
| Directives.MandatoryArgs | tonnikala/syntaxes/tonnikala.py:99 | succeeds exactly when every mandatory attribute is present, giving their values in order; otherwise the error names the first missing one |
| Directives.TagOne | tonnikala/syntaxes/tonnikala.py:95-102 | a tag-form check adds one node exactly when the tag is its control name, and none otherwise; it can fail only when the tag matched |
| Directives.NormalizeGuard | tonnikala/syntaxes/tonnikala.py:152-156 | no `strip` gives no guard; a blank or empty `strip` gives the constant guard `1`; any other value is the guard itself |
| Directives.StaticAttrs | tonnikala/syntaxes/tonnikala.py:49-53 | one output attribute per remaining source attribute, in order, with its name, its value and the translation flag of its name |
| Text.StripEmptyIff | tonnikala/syntaxes/tonnikala.py:155 | the stripped value is empty exactly when the value is all whitespace, which is the blank-`strip` test |
| Text.StripSlice | tonnikala/syntaxes/tonnikala.py:217 | the stripped text is the part of the value between a whitespace-only prefix and a whitespace-only suffix |
| Text.DecimalRoundTrip | tonnikala/syntaxes/tonnikala.py:224 | the decimal text of a node type number reads back as that number |
| Generator.TonnikalaIrGenerator.constructor | tonnikala/syntaxes/tonnikala.py:31-36 | the generator's prefix is the one the constructor derives from its configuration, and it ends in a colon; the translatable flag is the one given |
| Generator.TonnikalaIrGenerator.GrabAndRemoveControlAttr | tonnikala/syntaxes/tonnikala.py:62-69 | returns the prefixed attribute's value if it is present, and the element is left with exactly that one attribute removed |
| Generator.TonnikalaIrGenerator.GetGuardExpression | tonnikala/syntaxes/tonnikala.py:44-45 | consumes the prefixed `strip` attribute and returns its value |
| Generator.TonnikalaIrGenerator.CollectMandatory | tonnikala/syntaxes/tonnikala.py:99 | the loop over the mandatory names returns what the mandatory-argument specification gives, values in order or the first missing name's error |
| Generator.TonnikalaIrGenerator.MakeControlNode | tonnikala/syntaxes/tonnikala.py:95-102 | appends a fresh node of the directive's kind at the node's position exactly when the tag matches, or fails with the mandatory-attribute error |
| Generator.TonnikalaIrGenerator.MakeControlNodeOfAttr | tonnikala/syntaxes/tonnikala.py:116-121 | consumes the directive's prefixed attribute and, if it was present, appends a fresh directive node built from its value at position (0, 0) |
| Generator.TonnikalaIrGenerator.TagFormNodes | tonnikala/syntaxes/tonnikala.py:104-111 | the eight tag-form checks in source order create fresh unlinked nodes matching the tag-form specification, or its first error |
| Generator.TonnikalaIrGenerator.AttrFormNodes | tonnikala/syntaxes/tonnikala.py:123-128 | the six attribute-form checks in source order append fresh nodes matching the attribute-form specification and leave the attributes it describes |
| Generator.TonnikalaIrGenerator.LinkChildren | tonnikala/syntaxes/tonnikala.py:137-144 | making each node the only child of the one before it leaves the nodes in order, each linked to the next, with the last one childless |
| Generator.TonnikalaIrGenerator.CreateControlNodes | tonnikala/syntaxes/tonnikala.py:91-146 | the created chain has the specified kinds and positions and is linked; top and bottom are its ends, or `(True, None, None)` without directives; the generate-element flag and the remaining attributes are as specified; an error leaves the attributes untouched |
| Generator.TonnikalaIrGenerator.StaticAttributes | tonnikala/syntaxes/tonnikala.py:49-53 | the attribute loop yields the static attribute list of the specification |
| Generator.TonnikalaIrGenerator.GenerateAttributesForNode | tonnikala/syntaxes/tonnikala.py:47-55 | consumes the prefixed `attrs` attribute as the dynamic attributes and returns every attribute left on the element |
| Generator.TonnikalaIrGenerator.GetReplace | tonnikala/syntaxes/tonnikala.py:164-167 | the replace tag reads its mandatory unprefixed `value` and leaves it in place; any other element consumes its prefixed `replace` |
| Generator.TonnikalaIrGenerator.ElementControls | tonnikala/syntaxes/tonnikala.py:152-167 | the guard is the normalised `strip` value; a non-empty `content` gives exactly one fresh childless expression node; the replacement is read from what remains |
| Generator.TonnikalaIrGenerator.MakeElement | tonnikala/syntaxes/tonnikala.py:169-178 | a replacement gives a fresh expression node that takes no children; otherwise, unless a tag form suppresses it, the element with its guard, static and dynamic attributes; otherwise nothing |
| Generator.TonnikalaIrGenerator.Splice | tonnikala/syntaxes/tonnikala.py:180-193 | the new node becomes the only child of the chain's bottom and the new bottom; the top is the chain's top or the new node; the bottom's children are overridden, generated or left empty |
| Generator.TonnikalaIrGenerator.FinishElementNode | tonnikala/syntaxes/tonnikala.py:169-193 | the chain is extended by the specified innermost node, linked, with fresh distinct nodes and the specified children at the bottom |
| Generator.TonnikalaIrGenerator.GenerateElementNode | tonnikala/syntaxes/tonnikala.py:149-195 | returns the top of a freshly built linked path of distinct nodes matching the element specification, with its innermost children and remaining attributes, or exactly the specification's error |
| Generator.TonnikalaIrGenerator.GenerateIrNode | tonnikala/syntaxes/tonnikala.py:198-224 | elements go through the element generation; every other node becomes one fresh childless node of the specified kind or the specified error, without touching attributes or children |
| DirectiveProperties.ControlNameUnique | tonnikala/syntaxes/tonnikala.py:58-59 | a tag is the control name of at most one directive name |
| DirectiveProperties.TagChainMatch | tonnikala/syntaxes/tonnikala.py:104-111 | when the directive names are distinct, running the checks for them equals running the one check for the name the tag matches |
| DirectiveProperties.TagChainNone | tonnikala/syntaxes/tonnikala.py:104-111 | when the tag matches none of the names, the checks create nothing and cannot fail |
| DirectiveProperties.TagFormSelects | tonnikala/syntaxes/tonnikala.py:104-111 | the tag-form outcome is the outcome of the single directive the tag names |
| DirectiveProperties.TagFormNoMatch | tonnikala/syntaxes/tonnikala.py:95-97 | a tag naming no directive gives no tag-form node and no error |
| DirectiveProperties.TagFormAtMostOne | tonnikala/syntaxes/tonnikala.py:104-114 | at most one tag-form node is created; one exists exactly when the tag names a directive, and it is that directive built from its mandatory arguments at the node's position |
| DirectiveProperties.TagFormMissingAttribute | tonnikala/syntaxes/tonnikala.py:83-89 | a tag-form directive missing a mandatory attribute, all earlier ones present, makes element generation fail with the message naming the tag and that attribute, at the node's line |
| DirectiveProperties.MissingMessageNames | tonnikala/syntaxes/tonnikala.py:86-87 | the missing-attribute message starts with the tag in angle brackets and ends with the attribute name in quotes |
| DirectiveProperties.AttrChainReference | tonnikala/syntaxes/tonnikala.py:116-128 | for distinct directive names, the sequence of attribute checks creates the node of each present directive in order, each from the original attribute value, and removes exactly their names |
| DirectiveProperties.AttrFormNodes | tonnikala/syntaxes/tonnikala.py:123-128 | the attribute-form nodes are those for block, if, for, def, with and vars present on the element, in that order |
| DirectiveProperties.AttrFormRest | tonnikala/syntaxes/tonnikala.py:116-118 | the attribute forms remove exactly the six prefixed directive names |
| DirectiveProperties.WithAndVarsNest | tonnikala/syntaxes/tonnikala.py:127-128 | with both `with` and `vars` present, the two innermost directive nodes are the `with` node and then the `vars` node, both `With` nodes |
| DirectiveProperties.ControlChain | tonnikala/syntaxes/tonnikala.py:113-128 | the chain is the tag-form node, if any, followed by the attribute-form nodes in order; it holds only directive kinds; the element is generated exactly when no tag form matched; the six directive names are removed |
| DirectiveProperties.NoDirectives | tonnikala/syntaxes/tonnikala.py:131-132 | an element with no directive creates no nodes, generates the element and keeps all its attributes |
| DirectiveProperties.ElementNodeReference | tonnikala/syntaxes/tonnikala.py:149-167 | `strip`, `content` and `replace` are read from the source attributes as given, and the innermost node sees the attributes with every name consumed so far removed |
| DirectiveProperties.ElementEmitted | tonnikala/syntaxes/tonnikala.py:176-178 | with no tag form and no replacement, the element is the innermost node: its guard comes from `strip`, its dynamic attributes from `attrs`, its static attributes have every consumed name removed, and `content` decides its children |
| DirectiveProperties.KeepMembers | tonnikala/syntaxes/tonnikala.py:62-69 | after the control attributes are removed, an attribute remains exactly when it was present and its name was not removed |
| DirectiveProperties.NothingLeaks | tonnikala/syntaxes/tonnikala.py:47-53 | the element's static attributes are exactly the source attributes whose names were not consumed, with their values and translation flags |
| DirectiveProperties.TagFormSuppressesElement | tonnikala/syntaxes/tonnikala.py:149-178 | with a tag-form directive, its node is outermost, no element is emitted anywhere in the path, and `strip` is removed without effect |
| DirectiveProperties.ContentFill | tonnikala/syntaxes/tonnikala.py:158-162 | without a replacement, a non-empty `content` overrides the children and an absent or empty one leaves them generated; `content` is removed either way |
| DirectiveProperties.ReplaceAttribute | tonnikala/syntaxes/tonnikala.py:166-174 | a `replace` attribute makes the innermost node one expression of its value, adds no children even with `content`, and no element is emitted |
| DirectiveProperties.ReplaceTag | tonnikala/syntaxes/tonnikala.py:164-165 | the replace tag becomes the expression of its `value` attribute with no children, or, without `value`, the syntax error naming the tag and `value` |
| DirectiveProperties.ElementEmittedIff | tonnikala/syntaxes/tonnikala.py:169-178 | the element is emitted exactly when no tag form matched, the tag is not the replace tag and there is no `replace` attribute |
| DirectiveProperties.CommentEscaped | tonnikala/syntaxes/tonnikala.py:212-214 | a comment becomes escaped markup: its text, unchanged, between the comment delimiters |
| DirectiveProperties.InstructionStripped | tonnikala/syntaxes/tonnikala.py:216-218 | a processing instruction becomes code: its data without surrounding whitespace, which stripping leaves unchanged |
| DirectiveProperties.UnhandledNodeType | tonnikala/syntaxes/tonnikala.py:224 | any other node type is a syntax error at the node's line whose message ends in the decimal number of the type |

## Left out

- Parsing comes from `parse`, `parse_js` and the XML/HTML document parsers. The model starts from an already parsed node. The loader and the module-level parse helpers are not part of this model.
- The base generator, `BaseDOMIRGenerator`, is not modelled:
  - Its state stack is reduced to one fixed translatable flag, so `set_translatable` is not modelled.
  - `add_children(child_iter(...))` is a parameter, `generated`: the children the base generator would build. `childrenAdded` says whether it is called.
  - `generate_attributes` is modelled as the element carrying its static and dynamic attributes.
  - Flattening, merging and the later compiler passes are not part of this model.
- `handle_text_node`, the expression scanner, is external. Text and attribute values appear unscanned, as `Scanned` nodes and `StaticAttr` values, with the flags the scanner receives.
- `syntax_error` hands its message and line to the base generator's `syntax_error`, which is not part of this model. The model assumes that call raises. So a missing mandatory attribute, the replace tag missing `value`, or an unhandled node type ends generation with `Err`. If it returned instead, the source would go on with minidom's empty `getAttribute` value, or return `None` for the node.
- Whitespace for `strip` is Python 3's `str.isspace()` set. Python 2.7's `unicode.strip()` also removes U+180E, and the model does not.
- A document type's `toxml()` is represented by its fixed `markup` text.
- The missing-attribute message formats `dom_node.name`, and the model uses the element's tag name for it.
- IR-node truthiness (`if not topmost`, `if el_ir_node`) is modelled as a null test.
- The directive checks appear as loops over fixed tables, `TagDirectives` and `AttrDirectives`, in the source's call order. The source writes them as explicit calls. The helper methods split `generate_element_node` into steps, statement for statement.
- Generator.TonnikalaIrGenerator.GenerateElementNode: after a syntax error nothing is promised about the element's attributes. The source may already have removed some of them, for example `strip` and `content` before the replace tag's missing `value` is reported.
- Generator.TonnikalaIrGenerator.ElementControls: the `content` expression node is created before `replace` is looked at, as in the source. When a replacement discards it, the model only promises that it is not attached.
- Attribute-form nodes get position (0, 0), as the source computes it from a plain attribute string. That is likely not the element's position, and it is modelled as written.
- IR node class behaviour beyond kind, position and the child list is not part of this model.
