/** The XML tree the package, NCX and navigation documents are parsed into
    and built as. Parsing and serialisation stay outside the model. Attribute
    keys use Clark notation ("{uri}local" for a namespaced attribute, a bare
    name otherwise). */
module Xml {
  import opened Wrappers

  /** An element tag: its namespace URI (None for an un-namespaced tag) and
      its local name. */
  datatype Tag = Tag(ns: Option<string>, local: string)

  datatype Element = Element(
    tag: Tag,
    attrs: map<string, string>,
    text: Option<string>,
    children: seq<Element>)
  {
    /** `element.get(key)`: the attribute value, or None. */
    function Get(key: string): Option<string>
    {
      if key in attrs then Some(attrs[key]) else None
    }
  }

  /** An element with attributes and children but no text, as lxml's
      ElementMaker builds one. */
  function Make(tag: Tag, attrs: map<string, string>, children: seq<Element>): Element
  {
    Element(tag, attrs, None, children)
  }

  /** The elements of `cs` whose tag is `t`, in document order. */
  function Tagged(cs: seq<Element>, t: Tag): (r: seq<Element>)
    ensures |r| <= |cs|
    decreases |cs|
  {
    if cs == [] then []
    else (if cs[0].tag == t then [cs[0]] else []) + Tagged(cs[1..], t)
  }

  /** Tagged keeps exactly the elements with tag `t`. */
  lemma {:induction false} TaggedMembers(cs: seq<Element>, t: Tag)
    ensures forall c :: c in Tagged(cs, t) <==> c in cs && c.tag == t
    decreases |cs|
  {
    if cs != [] {
      TaggedMembers(cs[1..], t);
      assert forall c :: c in cs <==> c == cs[0] || c in cs[1..];
    }
  }

  lemma {:induction false} TaggedConcat(a: seq<Element>, b: seq<Element>, t: Tag)
    ensures Tagged(a + b, t) == Tagged(a, t) + Tagged(b, t)
    decreases |a|
  {
    if a != [] {
      assert (a + b)[0] == a[0];
      assert (a + b)[1..] == a[1..] + b;
      TaggedConcat(a[1..], b, t);
      var h := if a[0].tag == t then [a[0]] else [];
      assert h + (Tagged(a[1..], t) + Tagged(b, t)) == (h + Tagged(a[1..], t)) + Tagged(b, t);
    } else {
      assert a + b == b;
    }
  }

  /** `e.findall('./t1/t2/...')`: the elements reached from `e` by the child
      steps of `path`, in document order. */
  function Select(e: Element, path: seq<Tag>): seq<Element>
    decreases |path|, 0
  {
    if path == [] then [e]
    else SelectAll(Tagged(e.children, path[0]), path[1..])
  }

  function SelectAll(es: seq<Element>, path: seq<Tag>): seq<Element>
    decreases |path|, 1, |es|
  {
    if es == [] then []
    else Select(es[0], path) + SelectAll(es[1..], path)
  }

  /** `e.find(path)`: the first element `findall` would return, or None. */
  function Find(e: Element, path: seq<Tag>): (r: Option<Element>)
    ensures r.Some? <==> |Select(e, path)| > 0
    ensures r.Some? ==> r.value == Select(e, path)[0]
  {
    var s := Select(e, path);
    if |s| == 0 then None else Some(s[0])
  }

  /** A one-step path selects exactly the matching children. */
  lemma SelectOneStep(e: Element, t: Tag)
    ensures Select(e, [t]) == Tagged(e.children, t)
  {
    assert [t][1..] == [];
    SelectAllSingleton(Tagged(e.children, t));
  }

  lemma SelectAllSingleton(es: seq<Element>)
    ensures SelectAll(es, []) == es
    decreases |es|
  {
    if es != [] {
      SelectAllSingleton(es[1..]);
    }
  }

  /** The elements of `es` whose attribute `key` equals `value`, as the
      ElementPath predicate `[@key="value"]` keeps them. */
  function WithAttr(es: seq<Element>, key: string, value: string): (r: seq<Element>)
    ensures forall c :: c in r ==> c in es && c.Get(key) == Some(value)
    ensures forall c :: c in es && c.Get(key) == Some(value) ==> c in r
    decreases |es|
  {
    if es == [] then []
    else (if es[0].Get(key) == Some(value) then [es[0]] else []) + WithAttr(es[1..], key, value)
  }

  /** A list whose elements all have tag `t` is kept whole. */
  lemma TaggedAll(cs: seq<Element>, t: Tag)
    requires forall c :: c in cs ==> c.tag == t
    ensures Tagged(cs, t) == cs
    decreases |cs|
  {
    if cs != [] {
      assert forall c :: c in cs[1..] ==> c in cs;
      TaggedAll(cs[1..], t);
    }
  }

  /** A list none of whose elements has tag `t` keeps nothing. */
  lemma TaggedNone(cs: seq<Element>, t: Tag)
    requires forall c :: c in cs ==> c.tag != t
    ensures Tagged(cs, t) == []
    decreases |cs|
  {
    if cs != [] {
      assert forall c :: c in cs[1..] ==> c in cs;
      TaggedNone(cs[1..], t);
    }
  }

  /** A two-step path through the only child tagged `a`. */
  lemma SelectThrough(e: Element, a: Tag, b: Tag, m: Element)
    requires Tagged(e.children, a) == [m]
    ensures Select(e, [a, b]) == Tagged(m.children, b)
  {
    assert [a, b][1..] == [b];
    SelectOneStep(m, b);
    assert SelectAll([m], [b]) == Select(m, [b]) + SelectAll([], [b]);
  }

  /** Tagged on a list of one. */
  lemma TaggedSingle(c: Element, t: Tag)
    ensures Tagged([c], t) == if c.tag == t then [c] else []
  {
    assert [c][1..] == [];
  }

  /** Tagged on a list of two and of three. */
  lemma TaggedPair(x: Element, y: Element, t: Tag)
    ensures Tagged([x, y], t) == (if x.tag == t then [x] else []) + (if y.tag == t then [y] else [])
  {
    assert [x, y] == [x] + [y];
    TaggedConcat([x], [y], t);
    TaggedSingle(x, t);
    TaggedSingle(y, t);
  }

  lemma TaggedThree(x: Element, y: Element, z: Element, t: Tag)
    ensures Tagged([x, y, z], t) ==
      (if x.tag == t then [x] else []) + (if y.tag == t then [y] else []) + (if z.tag == t then [z] else [])
  {
    assert [x, y, z] == [x] + [y, z];
    TaggedConcat([x], [y, z], t);
    TaggedSingle(x, t);
    TaggedPair(y, z, t);
  }
}
