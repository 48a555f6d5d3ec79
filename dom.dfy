/** The source node tree the generator reads, as `xml.dom.minidom` exposes it:
    node-type codes, an element's ordered attribute list, and the three
    attribute operations the generator calls (`hasAttribute`, `getAttribute`,
    `removeAttribute`). */
module Dom {
  import opened Results

  /** A source position: (line, column). */
  type Position = (int, int)

  /** Node type codes of the W3C DOM, as `xml.dom.minidom.Node` numbers them. */
  const ELEMENT_NODE: nat := 1
  const TEXT_NODE: nat := 3
  const PROCESSING_INSTRUCTION_NODE: nat := 7
  const COMMENT_NODE: nat := 8
  const DOCUMENT_TYPE_NODE: nat := 10

  datatype Attr = Attr(name: string, value: string)

  /** An element's attributes in document order. */
  type Attrs = seq<Attr>

  /** The set of attribute names present. */
  function Names(a: Attrs): set<string> {
    if a == [] then {} else {a[0].name} + Names(a[1..])
  }

  /** No attribute name occurs twice: the attribute list is a mapping. */
  predicate UniqueNames(a: Attrs) {
    forall i, j :: 0 <= i < j < |a| ==> a[i].name != a[j].name
  }

  /** A name is present exactly when some attribute carries it. */
  lemma {:induction false} NamesAt(a: Attrs, name: string)
    ensures name in Names(a) <==> exists i :: 0 <= i < |a| && a[i].name == name
  {
    if a != [] {
      NamesAt(a[1..], name);
      if name in Names(a[1..]) {
        var i :| 0 <= i < |a[1..]| && a[1..][i].name == name;
        assert a[i + 1].name == name;
      }
      if exists i :: 0 <= i < |a| && a[i].name == name {
        var i :| 0 <= i < |a| && a[i].name == name;
        if i > 0 { assert a[1..][i - 1].name == name; }
      }
    }
  }

  /** The value of the attribute called `name`, if there is one; with unique
      names it is the value of the one attribute of that name. */
  function Lookup(a: Attrs, name: string): (r: Option<string>)
    ensures r.Some? <==> name in Names(a)
    ensures r.Some? ==> exists i :: 0 <= i < |a| && a[i] == Attr(name, r.value)
  {
    if a == [] then None
    else if a[0].name == name then Some(a[0].value)
    else
      var r := Lookup(a[1..], name);
      assert r.Some? ==> exists i :: 0 <= i < |a| && a[i] == Attr(name, r.value) by {
        if r.Some? {
          var i :| 0 <= i < |a[1..]| && a[1..][i] == Attr(name, r.value);
          assert a[i + 1] == Attr(name, r.value);
        }
      }
      r
  }

  /** The attributes whose names are not in `drop`, in their original order. */
  function Keep(a: Attrs, drop: set<string>): (r: Attrs)
    ensures Names(r) == Names(a) - drop
    ensures |r| <= |a|
  {
    if a == [] then []
    else
      var rest := Keep(a[1..], drop);
      if a[0].name in drop then rest
      else
        assert ([a[0]] + rest)[1..] == rest;
        [a[0]] + rest
  }

  /** Dropping one set of names and then another drops their union. */
  lemma {:induction false} KeepKeep(a: Attrs, s: set<string>, t: set<string>)
    ensures Keep(Keep(a, s), t) == Keep(a, s + t)
  {
    if a != [] {
      KeepKeep(a[1..], s, t);
      if a[0].name !in s {
        assert Keep(a, s)[1..] == Keep(a[1..], s);
      }
    }
  }

  /** Dropping names that do not occur changes nothing. */
  lemma {:induction false} KeepAbsent(a: Attrs, drop: set<string>)
    requires Names(a) * drop == {}
    ensures Keep(a, drop) == a
  {
    if a != [] {
      KeepAbsent(a[1..], drop);
    }
  }

  /** Dropping other names does not change the value found for `name`. */
  lemma {:induction false} LookupKeep(a: Attrs, drop: set<string>, name: string)
    requires name !in drop
    ensures Lookup(Keep(a, drop), name) == Lookup(a, name)
  {
    if a != [] {
      LookupKeep(a[1..], drop, name);
    }
  }

  /** Dropping attributes keeps the names unique. */
  lemma {:induction false} KeepUnique(a: Attrs, drop: set<string>)
    requires UniqueNames(a)
    ensures UniqueNames(Keep(a, drop))
  {
    if a != [] {
      KeepUnique(a[1..], drop);
      var r := Keep(a[1..], drop);
      if a[0].name !in drop {
        NamesAt(a[1..], a[0].name);
        NamesAt(r, a[0].name);
        assert Keep(a, drop) == [a[0]] + r;
      }
    }
  }

  /** A node of the parsed document. Only elements have attributes; `markup`
      is what `toxml()` renders for a document-type node. */
  class DomNode {
    const nodeType: nat
    const tagName: string
    const nodeValue: string
    const markup: string
    const position: Option<Position>
    var attributes: Attrs

    ghost predicate Valid()
      reads this
    {
      UniqueNames(attributes)
    }

    constructor (nodeType: nat, tagName: string, nodeValue: string, markup: string,
                 position: Option<Position>, attributes: Attrs)
      requires UniqueNames(attributes)
      ensures Valid()
      ensures this.nodeType == nodeType && this.tagName == tagName && this.nodeValue == nodeValue
      ensures this.markup == markup && this.position == position && this.attributes == attributes
    {
      this.nodeType := nodeType;
      this.tagName := tagName;
      this.nodeValue := nodeValue;
      this.markup := markup;
      this.position := position;
      this.attributes := attributes;
    }

    predicate HasAttribute(name: string)
      reads this
    {
      name in Names(attributes)
    }

    /** minidom's `getAttribute`: the value, or the empty string when absent. */
    function GetAttribute(name: string): string
      reads this
    {
      match Lookup(attributes, name)
      case Some(v) => v
      case None => ""
    }

    /** minidom's `removeAttribute`, which raises when the attribute is absent. */
    method RemoveAttribute(name: string)
      requires Valid() && HasAttribute(name)
      modifies this
      ensures Valid()
      ensures attributes == Keep(old(attributes), {name})
    {
      KeepUnique(attributes, {name});
      attributes := Keep(attributes, {name});
    }
  }
}
