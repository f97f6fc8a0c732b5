/** The single-module edition of the library (dawn/__init__.py), where its
    text differs from the split modules: a `Toc(list)` in which every list has
    its own title and none has a backing item, an `AttributedString` that is a
    `str` and a `UserDict` at once, a metadata writer that indexes every
    attribute of its table, a manifest writer that always emits `media-type`,
    and an EPUB 2 document that keeps the NCX item in `_toc_item` instead of
    on the TOC. The rest of that file is the split text (the manifest, the
    spine, `getxmlattr`, `ns`, `parse_date`, `_init_read`, `_init_write`,
    `open`) and is modelled once, by the other modules. */
module Monolith {
  import opened Wrappers
  import opened Xml
  import opened Utils
  import opened Zip
  import opened Epub
  import Epub2
  import Epub3
  import Lifecycle

  // ------------------------------------------------------------ Toc(list)

  /** A `Toc` list: its own `title`, None unless assigned, and its entries. */
  datatype TocList = TocList(title: Option<string>, nodes: seq<MonoNode>)

  /** A `Toc.Item`: href, title, and a `Toc` list of children. */
  datatype MonoNode = MonoNode(href: string, title: string, children: TocList)

  /** The node `Toc.append` builds where the split `TocItems.append` builds
      `n`: each children list is a fresh `Toc()`, titled None. */
  function Lift(n: TocNode): MonoNode
    decreases n
  {
    MonoNode(n.href, n.title, TocList(None, LiftAll(n.children)))
  }

  function LiftAll(ns: seq<TocNode>): (r: seq<MonoNode>)
    ensures |r| == |ns| && forall i :: 0 <= i < |ns| ==> r[i] == Lift(ns[i])
    decreases ns
  {
    if ns == [] then [] else [Lift(ns[0])] + LiftAll(ns[1..])
  }

  /** What the split model keeps of a node: the titles of the lists below
      it dropped. */
  function Unlift(m: MonoNode): TocNode
    decreases m
  {
    TocNode(m.href, m.title, UnliftAll(m.children.nodes))
  }

  function UnliftAll(ms: seq<MonoNode>): (r: seq<TocNode>)
    ensures |r| == |ms| && forall i :: 0 <= i < |ms| ==> r[i] == Unlift(ms[i])
    decreases ms
  {
    if ms == [] then [] else [Unlift(ms[0])] + UnliftAll(ms[1..])
  }

  /** No list below the node has a title. */
  predicate Untitled(m: MonoNode)
    decreases m
  {
    m.children.title.None? &&
    forall i :: 0 <= i < |m.children.nodes| ==> Untitled(m.children.nodes[i])
  }

  /** A built node has untitled lists and loses nothing else: dropping the
      titles gives back the split node. */
  lemma {:induction false} LiftUnlift(n: TocNode)
    ensures Untitled(Lift(n)) && Unlift(Lift(n)) == n
    decreases n
  {
    forall i | 0 <= i < |n.children| ensures Untitled(Lift(n.children[i])) && Unlift(Lift(n.children[i])) == n.children[i] {
      LiftUnlift(n.children[i]);
    }
    var m := Lift(n);
    assert m.children.nodes == LiftAll(n.children);
    assert UnliftAll(m.children.nodes) == n.children;
  }

  /** Conversely, an untitled node is the lifting of the split node it
      stands for. */
  lemma {:induction false} UnliftLift(m: MonoNode)
    requires Untitled(m)
    ensures Lift(Unlift(m)) == m
    decreases m
  {
    forall i | 0 <= i < |m.children.nodes| ensures Lift(Unlift(m.children.nodes[i])) == m.children.nodes[i] {
      UnliftLift(m.children.nodes[i]);
    }
    assert LiftAll(UnliftAll(m.children.nodes)) == m.children.nodes;
  }

  lemma LiftAllConcat(a: seq<TocNode>, b: seq<TocNode>)
    ensures LiftAll(a + b) == LiftAll(a) + LiftAll(b)
  {
    assert forall i :: 0 <= i < |a| ==> (a + b)[i] == a[i];
    assert forall i :: |a| <= i < |a + b| ==> (a + b)[i] == b[i - |a|];
  }

  /** Appending one more lifted node. */
  lemma LiftStep(o: seq<MonoNode>, done: seq<TocNode>, x: TocNode)
    ensures o + LiftAll(done) + [Lift(x)] == o + LiftAll(done + [x])
  {
    LiftAllConcat(done, [x]);
    assert LiftAll([x]) == [Lift(x)];
  }

  function LiftResult(r: Result<TocNode>): Result<MonoNode>
  {
    match r
    case Err(e) => Err(e)
    case Ok(n) => Ok(Lift(n))
  }

  /** `Toc.append` takes the arguments the split `append` takes, and
      refuses the same ones with the same TypeError; a str entry becomes a
      node with untitled lists whose split form is the split expansion. */
  lemma AppendSpec(a: TocArg)
    requires a.item.Str?
    ensures LiftResult(Expand(a)).Ok? <==> Accepted(a)
    ensures LiftResult(Expand(a)).Err? ==> LiftResult(Expand(a)).error == TypeError
    ensures LiftResult(Expand(a)).Ok? ==>
      var m := LiftResult(Expand(a)).value;
      Untitled(m) && m.href == a.item.s && m.title == a.title.value && |m.children.nodes| == |a.children| &&
      Unlift(m) == Expand(a).value
  {
    ExpandSpec(a);
    if Expand(a).Ok? {
      LiftUnlift(Expand(a).value);
    }
  }

  /** The monolith's `Toc(list)`: its entries and its own title. */
  class MonoToc {
    var title: Option<string>
    var nodes: seq<MonoNode>

    /** `Toc.__init__`: `self.title = None`. */
    constructor ()
      ensures title == None && nodes == []
    {
      title := None;
      nodes := [];
    }

    /** `Toc.append(item, title, children)`: the node is built (children
        appended to its own `Toc()` in turn) and appended. */
    method Append(a: TocArg) returns (r: Result<MonoNode>)
      modifies this`nodes
      ensures r == LiftResult(Expand(a))
      ensures r.Ok? ==> nodes == old(nodes) + [r.value]
      ensures r.Err? ==> nodes == old(nodes)
    {
      var n := Build(a);
      if n.Err? {
        return Err(n.error);
      }
      r := Ok(Lift(n.value));
      nodes := nodes + [r.value];
    }
  }

  /** `for a in parse(ncx): self.toc.append(*a)` on the monolith's TOC: the
      entries of the split reader, each lifted. */
  method AppendNavPoints(toc: MonoToc, ncx: Element) returns (r: Result<()>)
    modifies toc`nodes
    ensures r.Ok? <==> Epub2.NcxEntries(ncx).Ok?
    ensures r.Err? ==> r.error == Epub2.NcxEntries(ncx).error
    ensures r.Ok? ==> toc.nodes == old(toc.nodes) + LiftAll(Epub2.NcxEntries(ncx).value)
  {
    var points := Select(ncx, [Epub2.NAV_MAP, Epub2.NAV_POINT]);
    var done: seq<TocNode> := [];
    var i := 0;
    assert points[i..] == points;
    assert Prepend(done, MapResult(points, Epub2.NavPointNode)) == MapResult(points, Epub2.NavPointNode) by {
      match MapResult(points, Epub2.NavPointNode)
      case Err(_) =>
      case Ok(ys) => assert done + ys == ys;
    }
    while i < |points|
      invariant 0 <= i <= |points|
      invariant MapResult(points, Epub2.NavPointNode) == Prepend(done, MapResult(points[i..], Epub2.NavPointNode))
      invariant toc.nodes == old(toc.nodes) + LiftAll(done)
    {
      MapResultStep(points, i, Epub2.NavPointNode, done);
      var n := Epub2.NavPointNode(points[i]);
      if n.Err? {
        return Err(n.error);
      }
      LiftStep(old(toc.nodes), done, n.value);
      toc.nodes := toc.nodes + [Lift(n.value)];
      done := done + [n.value];
      i := i + 1;
    }
    assert points[i..] == [];
    assert done + [] == done;
    r := Ok(());
  }

  // ------------------------------------------- AttributedString(UserDict, str)

  /** `str(astr)`: `str.__str__`, the string the value was built from; a
      None value is the string "None" and a uuid its canonical form. */
  function StrOf(a: AS): string
  {
    match a.value
    case Text(s) => s
    case NoText => "None"
    case UuidObject(h) => h
  }

  /** Where the split `str(astr)` succeeds the two agree; where it raises,
      the monolith still has a string. */
  lemma StrAgrees(a: AS)
    ensures a.Str().Ok? ==> StrOf(a) == a.Str().value
    ensures a.value.NoText? ==> a.Str() == Err(TypeError) && StrOf(a) == "None"
  {
  }

  /** `bool(astr)`: `UserDict.__len__`, so only the attributes count. */
  predicate MonoTruthy(a: AS)
  {
    |a.attrs| > 0
  }

  /** `bool(field)` with that truth for a single value. */
  predicate MonoFieldTruthy(f: Field)
  {
    match f
    case Many(xs) => xs != []
    case One(None) => false
    case One(Some(a)) => MonoTruthy(a)
  }

  /** A non-empty text without attributes is true for the split modules and
      false for the monolith; an empty text with attributes the other way. */
  lemma TruthDiffers(s: string, k: string, v: Option<string>)
    requires s != ""
    ensures AS(Text(s), map[]).Truthy() && !MonoTruthy(AS(Text(s), map[]))
    ensures !AS(Text(""), map[k := v]).Truthy() && MonoTruthy(AS(Text(""), map[k := v]))
  {
    assert k in map[k := v];
  }

  // --------------------------------------------------------- _xml_meta

  /** `{ns(k): astr[k.split(':', 1)[-1]] for k in attrs}` is evaluated in
      order; it succeeds when every key has a known prefix and names an
      attribute of the string, and every failure it can meet is a KeyError. */
  lemma {:induction false} IndexedAttrsOk(a: AS, keys: seq<string>)
    ensures Epub3.IndexedAttrs(a, keys).Ok? <==>
      forall i :: 0 <= i < |keys| ==> Ns(keys[i]).Ok? && LocalName(keys[i]) in a.attrs
    ensures Epub3.IndexedAttrs(a, keys).Err? ==> Epub3.IndexedAttrs(a, keys).error.KeyError?
    decreases |keys|
  {
    if keys != [] {
      var n := |keys| - 1;
      var pre := keys[..n];
      var k := keys[n];
      IndexedAttrsOk(a, pre);
      var rp := Epub3.IndexedAttrs(a, pre);
      var r := Epub3.IndexedAttrs(a, keys);
      if rp.Err? {
        assert r == rp;
        var i :| 0 <= i < n && !(Ns(pre[i]).Ok? && LocalName(pre[i]) in a.attrs);
        assert pre[i] == keys[i];
      } else if Ns(k).Err? {
        assert r == Err(Ns(k).error);
      } else if LocalName(k) !in a.attrs {
        assert r == Err(KeyError(Some(LocalName(k))));
      } else {
        assert r.Ok?;
        forall i | 0 <= i < |keys| ensures Ns(keys[i]).Ok? && LocalName(keys[i]) in a.attrs {
          if i == n {
            assert keys[i] == k;
          } else {
            assert keys[i] == pre[i];
            assert Ns(pre[i]).Ok? && LocalName(pre[i]) in a.attrs;
          }
        }
      }
    }
  }

  /** Each key is written under its `ns` name. */
  lemma {:induction false} IndexedAttrsKey(a: AS, keys: seq<string>, i: nat)
    requires Epub3.IndexedAttrs(a, keys).Ok? && i < |keys|
    ensures Ns(keys[i]).Ok? && Ns(keys[i]).value in Epub3.IndexedAttrs(a, keys).value
    decreases |keys|
  {
    var n := |keys| - 1;
    var pre := keys[..n];
    var k := keys[n];
    var rp := Epub3.IndexedAttrs(a, pre);
    assert rp.Ok? && Ns(k).Ok? && LocalName(k) in a.attrs;
    var m := rp.value[Ns(k).value := a.attrs[LocalName(k)]];
    assert Epub3.IndexedAttrs(a, keys) == Ok(m);
    if i == n {
      assert Ns(keys[i]).value in m;
    } else {
      IndexedAttrsKey(a, pre, i);
      assert pre[i] == keys[i];
      assert Ns(keys[i]).Ok? && Ns(keys[i]).value in rp.value;
    }
  }

  /** Each value written is the value of the attribute some key names. */
  lemma {:induction false} IndexedAttrsValues(a: AS, keys: seq<string>)
    requires Epub3.IndexedAttrs(a, keys).Ok?
    ensures var m := Epub3.IndexedAttrs(a, keys).value;
      forall k :: k in m ==> exists i :: (0 <= i < |keys| && Ns(keys[i]) == Ok(k) && LocalName(keys[i]) in a.attrs &&
        m[k] == a.attrs[LocalName(keys[i])])
    decreases |keys|
  {
    if keys != [] {
      var n := |keys| - 1;
      var pre := keys[..n];
      var q := keys[n];
      var rp := Epub3.IndexedAttrs(a, pre);
      assert rp.Ok? && Ns(q).Ok? && LocalName(q) in a.attrs;
      IndexedAttrsValues(a, pre);
      var m := rp.value;
      var r := Epub3.IndexedAttrs(a, keys).value;
      assert r == m[Ns(q).value := a.attrs[LocalName(q)]];
      forall k | k in r
        ensures exists i :: (0 <= i < |keys| && Ns(keys[i]) == Ok(k) && LocalName(keys[i]) in a.attrs &&
          r[k] == a.attrs[LocalName(keys[i])])
      {
        if k == Ns(q).value {
          assert Ns(keys[n]) == Ok(k);
        } else {
          var j :| 0 <= j < n && Ns(pre[j]) == Ok(k) && LocalName(pre[j]) in a.attrs && m[k] == a.attrs[LocalName(pre[j])];
          assert pre[j] == keys[j];
        }
      }
    }
  }

  /** Two table keys written under the same attribute name read the same
      attribute of the string. */
  lemma SameNsSameLocal(k1: string, k2: string)
    requires TableKey(k1) && TableKey(k2) && Ns(k1).Ok? && Ns(k1) == Ns(k2)
    ensures LocalName(k1) == LocalName(k2)
  {
    if ':' in k1 {
      SplitTableKey(k1);
    }
    if ':' in k2 {
      SplitTableKey(k2);
    }
    if ':' in k1 && ':' in k2 {
      var w := |"{" + OPF_URI + "}"|;
      assert Clark(OPF_URI, k1[4..])[w..] == k1[4..];
      assert Clark(OPF_URI, k2[4..])[w..] == k2[4..];
    }
  }

  /** One value as the monolith writes it:
      `getattr(E['dc'], tag)(str(astr), {ns(k): astr[...] for k in attrs})`.
      The text never fails; a None attribute value is the builder's
      KeyError(NoneType). */
  function MonoValueElement(row: Row, a: AS): (r: Result<Element>)
    ensures r.Ok? ==> r.value.tag == Q(Dc, row.tag) && r.value.text == Some(StrOf(a)) && r.value.children == []
    ensures a.Str().Ok? ==> r == Epub3.ValueElement(row, a)
  {
    match Epub3.IndexedAttrs(a, row.attrs)
    case Err(x) => Err(x)
    case Ok(m) =>
      match Epub3.Attrib(m)
      case Err(x) => Err(x)
      case Ok(attrs) => Ok(Element(Q(Dc, row.tag), attrs, Some(StrOf(a)), []))
  }

  /** When every attribute of the row is on the string with a value. */
  predicate Complete(row: Row, a: AS)
  {
    forall i :: 0 <= i < |row.attrs| ==>
      LocalName(row.attrs[i]) in a.attrs && a.attrs[LocalName(row.attrs[i])].Some?
  }

  /** A value is written exactly when it carries every attribute of the row
      with a value. */
  lemma ValueElementOk(row: Row, a: AS)
    requires Epub2.TableKeys(row.attrs)
    ensures MonoValueElement(row, a).Ok? <==> Complete(row, a)
  {
    var keys := row.attrs;
    IndexedAttrsOk(a, keys);
    forall i | 0 <= i < |keys| ensures Ns(keys[i]).Ok? {
      TableKeyNs(keys[i]);
    }
    var ix := Epub3.IndexedAttrs(a, keys);
    if ix.Ok? {
      var m := ix.value;
      IndexedAttrsValues(a, keys);
      if Complete(row, a) {
        forall k | k in m ensures m[k].Some? {
          var j :| 0 <= j < |keys| && Ns(keys[j]) == Ok(k) && LocalName(keys[j]) in a.attrs &&
            m[k] == a.attrs[LocalName(keys[j])];
        }
      } else {
        var i :| 0 <= i < |keys| && !(LocalName(keys[i]) in a.attrs && a.attrs[LocalName(keys[i])].Some?);
        IndexedAttrsKey(a, keys, i);
        var k := Ns(keys[i]).value;
        var j :| 0 <= j < |keys| && Ns(keys[j]) == Ok(k) && LocalName(keys[j]) in a.attrs &&
          m[k] == a.attrs[LocalName(keys[j])];
        SameNsSameLocal(keys[i], keys[j]);
      }
    }
  }

  /** A missing attribute is a KeyError; with every attribute present, a
      None one is the builder's KeyError(NoneType). */
  lemma ValueElementErrors(row: Row, a: AS)
    requires Epub2.TableKeys(row.attrs)
    ensures (exists i :: 0 <= i < |row.attrs| && LocalName(row.attrs[i]) !in a.attrs) ==>
      MonoValueElement(row, a).Err? && MonoValueElement(row, a).error.KeyError?
    ensures (forall i :: 0 <= i < |row.attrs| ==> LocalName(row.attrs[i]) in a.attrs) && !Complete(row, a) ==>
      MonoValueElement(row, a) == Err(NoneTypeKeyError)
  {
    IndexedAttrsOk(a, row.attrs);
    forall i | 0 <= i < |row.attrs| ensures Ns(row.attrs[i]).Ok? {
      TableKeyNs(row.attrs[i]);
    }
    ValueElementOk(row, a);
  }

  /** A written value carries each attribute of the row under its `ns`
      name. */
  lemma ValueElementAttrs(row: Row, a: AS)
    requires MonoValueElement(row, a).Ok?
    ensures forall i :: 0 <= i < |row.attrs| ==>
      Ns(row.attrs[i]).Ok? && Ns(row.attrs[i]).value in MonoValueElement(row, a).value.attrs
  {
    forall i | 0 <= i < |row.attrs|
      ensures Ns(row.attrs[i]).Ok? && Ns(row.attrs[i]).value in Epub3.IndexedAttrs(a, row.attrs).value
    {
      IndexedAttrsKey(a, row.attrs, i);
    }
  }

  /** The values a row writes for its field: the list, or the single value. */
  function Todo(f: Field): (r: seq<AS>)
    ensures f.Many? ==> r == f.items
    ensures f.One? ==> |r| <= 1 && (f.item.Some? <==> |r| == 1) && (|r| == 1 ==> r[0] == f.item.value)
  {
    if f.Many? then f.items else if f.item.Some? then [f.item.value] else []
  }

  /** What one row writes: nothing for a false field (with the monolith's
      truth of a single value), otherwise one element per value, in order. */
  function MonoRowElements(row: Row, f: Field): (r: Result<seq<Element>>)
    requires f.Many? == row.multi
    ensures !MonoFieldTruthy(f) ==> r == Ok([])
    ensures MonoFieldTruthy(f) ==>
      (r.Ok? <==> forall i :: 0 <= i < |Todo(f)| ==> MonoValueElement(row, Todo(f)[i]).Ok?)
    ensures MonoFieldTruthy(f) && r.Ok? ==>
      |r.value| == |Todo(f)| &&
      forall i :: 0 <= i < |Todo(f)| ==> MonoValueElement(row, Todo(f)[i]) == Ok(r.value[i])
  {
    if !MonoFieldTruthy(f) then Ok([])
    else MapResult(Todo(f), (a: AS) => MonoValueElement(row, a))
  }

  /** Unlike the split EPUB 2 writer, every value of a list is written: a
      list of complete values gives one element per value, each with its
      value's string. */
  lemma EveryValueWritten(row: Row, xs: seq<AS>)
    requires row.multi && Epub2.TableKeys(row.attrs)
    requires forall i :: 0 <= i < |xs| ==> Complete(row, xs[i])
    ensures MonoRowElements(row, Many(xs)).Ok?
    ensures |MonoRowElements(row, Many(xs)).value| == |xs|
    ensures forall i :: 0 <= i < |xs| ==>
      MonoRowElements(row, Many(xs)).value[i].tag == Q(Dc, row.tag) &&
      MonoRowElements(row, Many(xs)).value[i].text == Some(StrOf(xs[i]))
  {
    forall i | 0 <= i < |xs| ensures MonoValueElement(row, xs[i]).Ok? {
      ValueElementOk(row, xs[i]);
    }
  }

  /** A single value without attributes is never written, whatever its
      text. */
  lemma BareValueSkipped(row: Row, a: AS)
    requires !row.multi && a.attrs == map[]
    ensures MonoRowElements(row, One(Some(a))) == Ok([])
  {
  }

  function MonoRowOutput(meta: Meta, row: Row): Result<seq<Element>>
    requires Shaped(meta, [row])
  {
    if FieldKey(row) in meta.fields then MonoRowElements(row, meta.fields[FieldKey(row)]) else Ok([])
  }

  /** The elements the table loop of `_xml_meta` appends, row by row. */
  function MonoRowsElements(meta: Meta, rows: seq<Row>): Result<seq<Element>>
    requires Shaped(meta, rows)
    decreases |rows|
  {
    if rows == [] then Ok([])
    else
      match MonoRowOutput(meta, rows[0])
      case Err(x) => Err(x)
      case Ok(es) => Prepend(es, MonoRowsElements(meta, rows[1..]))
  }

  /** `_xml_meta` of either dialect of the monolith, on its table: the
      format, the dates, then the rows. */
  function MonoMetadataElement(meta: Meta, rows: seq<Row>): Result<Element>
    requires Shaped(meta, rows)
  {
    match MonoRowsElements(meta, rows)
    case Err(x) => Err(x)
    case Ok(es) => Ok(MetadataOf(DateElements(meta.dates) + es))
  }

  lemma MonoRowsElementsStep(meta: Meta, rows: seq<Row>, i: nat, es: seq<Element>)
    requires i < |rows| && Shaped(meta, rows[i..])
    ensures Shaped(meta, [rows[i]]) && Shaped(meta, rows[i + 1..])
    ensures MonoRowOutput(meta, rows[i]).Err? ==> MonoRowsElements(meta, rows[i..]) == Err(MonoRowOutput(meta, rows[i]).error)
    ensures MonoRowOutput(meta, rows[i]).Ok? ==>
      Prepend(es, MonoRowsElements(meta, rows[i..])) ==
        Prepend(es + MonoRowOutput(meta, rows[i]).value, MonoRowsElements(meta, rows[i + 1..]))
  {
    assert rows[i..][0] == rows[i] && rows[i..][1..] == rows[i + 1..];
    assert rows[i] in rows[i..];
    assert forall r :: r in rows[i + 1..] ==> r in rows[i..];
    var out := MonoRowOutput(meta, rows[i]);
    if out.Ok? {
      match MonoRowsElements(meta, rows[i + 1..]) {
        case Err(_) =>
        case Ok(ys) => assert es + (out.value + ys) == (es + out.value) + ys;
      }
    }
  }

  /** The loops of the monolith's `_xml_meta`. */
  method XmlMeta(meta: Meta, rows: seq<Row>) returns (r: Result<Element>)
    requires Shaped(meta, rows)
    ensures r == MonoMetadataElement(meta, rows)
  {
    var es: seq<Element> := [];
    var i := 0;
    assert rows[i..] == rows;
    assert Prepend(es, MonoRowsElements(meta, rows)) == MonoRowsElements(meta, rows) by {
      match MonoRowsElements(meta, rows)
      case Err(_) =>
      case Ok(ys) => assert es + ys == ys;
    }
    while i < |rows|
      invariant 0 <= i <= |rows|
      invariant Shaped(meta, rows[i..])
      invariant MonoRowsElements(meta, rows) == Prepend(es, MonoRowsElements(meta, rows[i..]))
    {
      MonoRowsElementsStep(meta, rows, i, es);
      ShapedSuffix(meta, rows, i + 1);
      var out := MonoRowOutput(meta, rows[i]);
      if out.Err? {
        return Err(out.error);
      }
      es := es + out.value;
      i := i + 1;
    }
    assert rows[i..] == [];
    assert es + [] == es;
    r := Ok(MetadataOf(DateElements(meta.dates) + es));
  }

  // ------------------------------------------------------ _xml_manifest

  /** An item as the monolith's base `_xml_manifest` writes it: `media-type`
      is always in the attribute dict, so an item whose type cannot be
      guessed makes lxml's builder raise KeyError(NoneType), as does an item
      without an id; every other item is written as the split writer writes it. */
  function MonoItemElement(it: Item, guess: string -> Option<string>): (r: Result<Element>)
    ensures r.Ok? <==> it.iid.Some? && Mimetype(it, guess).Some?
    ensures r.Err? ==> r.error == NoneTypeKeyError
    ensures r.Ok? ==> r == ItemElement(it, guess)
  {
    if Mimetype(it, guess).None? then Err(NoneTypeKeyError) else ItemElement(it, guess)
  }

  /** The base `_xml_manifest`: one item per manifest value, in order. */
  function MonoManifestElement(vs: seq<Item>, guess: string -> Option<string>): (r: Result<Element>)
    ensures r.Ok? <==> forall i :: 0 <= i < |vs| ==> vs[i].iid.Some? && Mimetype(vs[i], guess).Some?
    ensures r.Ok? ==> r == ManifestElement(vs, guess)
  {
    match MapResult(vs, it => MonoItemElement(it, guess))
    case Err(e) => Err(e)
    case Ok(cs) =>
      var split := ManifestElement(vs, guess);
      assert split.Ok?;
      assert split.value.children == cs by {
        forall i | 0 <= i < |vs| ensures split.value.children[i] == cs[i] {
          assert MonoItemElement(vs[i], guess) == Ok(cs[i]);
        }
      }
      Ok(Make(Q(Opf, "manifest"), map[], cs))
  }

  /** The monolith's `_xml_manifest` of either dialect reads
      `self.toc.item`, which its `Toc` does not have: EPUB 2 before building
      anything, EPUB 3 once the base manifest is built. It never succeeds. */
  function MonoXmlManifest(d: Dialect, vs: seq<Item>, guess: string -> Option<string>): (r: Result<Element>)
    ensures r.Err?
    ensures d == Epub20 ==> r == Err(AttributeError)
    ensures d == Epub30 && (forall i :: 0 <= i < |vs| ==> vs[i].iid.Some? && Mimetype(vs[i], guess).Some?) ==>
      r == Err(AttributeError)
  {
    match d
    case Epub20 => Err(AttributeError)
    case Epub30 =>
      match MonoManifestElement(vs, guess)
      case Err(x) => Err(x)
      case Ok(_) => Err(AttributeError)
  }

  // ------------------------------------------------------ _xml_spine

  /** The monolith's `Epub20._xml_spine`: it reads `self._toc_item` (an
      AttributeError when `_read_toc` never set it) and ends without a
      `return`, so where the split writer gives the spine element it gives
      None. */
  function MonoSpine2(items: seq<Item>, tocItem: Option<Item>): (r: Result<Option<Element>>)
    ensures r.Ok? <==> SpineElement(items).Ok? && tocItem.Some? && tocItem.value.iid.Some?
    ensures r.Ok? ==> r.value.None?
    ensures tocItem.Some? ==> (r.Ok? <==> Epub2.SpineElement2(items, tocItem).Ok?)
  {
    match SpineElement(items)
    case Err(x) => Err(x)
    case Ok(_) =>
      if tocItem.None? then Err(AttributeError)
      else if tocItem.value.iid.None? then Err(TypeError)
      else Ok(None)
  }

  // ------------------------------------------------------ _write_toc

  const DEFAULT_TITLE := "Table of contents"

  /** `self.toc.title or 'Table of contents'`. */
  function TitleOrDefault(t: Option<string>): (s: string)
    ensures s != ""
    ensures t.Some? && t.value != "" ==> s == t.value
    ensures t.None? || t.value == "" ==> s == DEFAULT_TITLE
  {
    if t.Some? && t.value != "" then t.value else DEFAULT_TITLE
  }

  /** The NCX the monolith's `Epub20._write_toc` builds: the navPoints are
      the split writer's (`navmap` reads only each entry's title and
      children), under the fallback document title. */
  function MonoNcxDoc(title: Option<string>, nodes: seq<MonoNode>): Element
  {
    Epub2.NcxDoc(Some(TitleOrDefault(title)), UnliftAll(nodes))
  }

  /** The written NCX reads back with a non-empty title, the TOC's own when
      it has one; a TOC built by the reader is written as the split writer
      writes its entries. */
  lemma MonoNcxReadBack(title: Option<string>, es: seq<TocNode>)
    ensures Epub2.NcxTitle(MonoNcxDoc(title, LiftAll(es))) == Some(Some(TitleOrDefault(title)))
    ensures MonoNcxDoc(title, LiftAll(es)) == Epub2.NcxDoc(Some(TitleOrDefault(title)), es)
    ensures es != [] ==> Epub2.NcxEntries(MonoNcxDoc(title, LiftAll(es))) == Err(AttributeError)
  {
    forall i | 0 <= i < |es| ensures Unlift(Lift(es[i])) == es[i] {
      LiftUnlift(es[i]);
    }
    assert UnliftAll(LiftAll(es)) == es;
    Epub2.WrittenNcxReadBack(Some(TitleOrDefault(title)), es);
  }

  // ------------------------------------------------------ the document

  /** The exception the monolith's `_write_opf` meets once `_write_toc` has
      run, in the order the arguments of `E['opf'].package` are evaluated:
      the attribute dict (a None uid, or one without `id`), then `_xml_meta`,
      then `_xml_manifest`, which always raises. */
  function WriteError(uid: Option<AS>, meta: Meta): (e: Error)
    requires Lifecycle.WellShaped(meta)
  {
    Lifecycle.WellShapedIsShaped(meta, Epub2.META);
    if uid.None? then TypeError
    else if "id" !in uid.value.attrs then KeyError(Some("id"))
    else if MonoMetadataElement(meta, Epub2.META).Err? then MonoMetadataElement(meta, Epub2.META).error
    else AttributeError
  }

  /** An `Epub20` or `Epub30` object of the monolith, in the members whose
      text differs from the split one: the TOC is a `MonoToc`, and the EPUB 2
      NCX item lives in `_toc_item`, an attribute that only
      `Epub20._read_toc` ever sets (None here while it is unset). */
  class MonoDocument {
    const dialect: Dialect
    const opfpath: string
    const zf: Archive
    const guess: string -> Option<string>
    const manifest: Manifest
    const spine: Spine
    const toc: MonoToc
    var meta: Meta
    var uid: Option<AS>
    var tocItem: Option<Item>

    ghost predicate Valid()
      reads this, manifest
    {
      manifest.Valid() && Lifecycle.WellShaped(meta)
    }

    /** `_Epub.__init__`: an empty manifest, spine and TOC, the initial
        metadata, and no `_toc_item`. */
    constructor (dialect: Dialect, zf: Archive, opfpath: string, guess: string -> Option<string>)
      ensures Valid()
      ensures this.dialect == dialect && this.zf == zf && this.opfpath == opfpath && this.guess == guess
      ensures fresh(manifest) && fresh(spine) && fresh(toc)
      ensures manifest.entries == [] && spine.items == [] && toc.title == None && toc.nodes == []
      ensures meta == InitialMeta() && uid == None && tocItem == None
    {
      this.dialect := dialect;
      this.zf := zf;
      this.opfpath := opfpath;
      this.guess := guess;
      manifest := new Manifest();
      spine := new Spine();
      toc := new MonoToc();
      meta := InitialMeta();
      uid := None;
      tocItem := None;
      new;
      Lifecycle.InitialMetaWellShaped();
    }

    /** The monolith's `Epub20._read_toc`: the split text, except that the
        popped NCX item goes to `_toc_item`. Without a `toc` attribute on
        the spine nothing changes. */
    method ReadToc(opf: Element) returns (r: Result<()>)
      requires dialect == Epub20 && manifest.Valid()
      modifies manifest, toc, this`tocItem
      ensures manifest.Valid()
      ensures Epub2.TocId(opf).Err? ==> r == Err(Epub2.TocId(opf).error)
      ensures Epub2.TocId(opf) == Ok(None) ==> r == Ok(())
      ensures Epub2.TocId(opf).Err? || Epub2.TocId(opf) == Ok(None) ==>
        manifest.entries == old(manifest.entries) && tocItem == old(tocItem) &&
        toc.nodes == old(toc.nodes) && toc.title == old(toc.title)
      ensures Epub2.TocId(opf).Ok? && Epub2.TocId(opf).value.Some? ==>
        var k := Epub2.TocId(opf).value;
        (!HasKey(old(manifest.entries), k) ==> r == Err(KeyError(k)) && manifest.entries == old(manifest.entries)) &&
        (HasKey(old(manifest.entries), k) ==>
          manifest.entries == Remove(old(manifest.entries), k) && tocItem == Some(Lookup(old(manifest.entries), k).value))
      ensures Epub2.TocId(opf).Ok? && Epub2.TocId(opf).value.Some? && HasKey(old(manifest.entries), Epub2.TocId(opf).value) ==>
        var ncx := OpenItem(zf, opfpath, Lookup(old(manifest.entries), Epub2.TocId(opf).value).value.href);
        (r.Ok? <==> ncx.Ok? && Epub2.NcxEntries(ncx.value).Ok?) &&
        (r.Err? ==> r.error == if ncx.Err? then ncx.error else Epub2.NcxEntries(ncx.value).error)
      ensures r.Ok? && Epub2.TocId(opf).Ok? && Epub2.TocId(opf).value.Some? ==>
        var ncx := OpenItem(zf, opfpath, tocItem.value.href);
        ncx.Ok? && Epub2.NcxEntries(ncx.value).Ok? &&
        toc.nodes == old(toc.nodes) + LiftAll(Epub2.NcxEntries(ncx.value).value) &&
        toc.title == (if Epub2.NcxTitle(ncx.value).Some? then Epub2.NcxTitle(ncx.value).value else old(toc.title))
    {
      var tid := Epub2.TocId(opf);
      if tid.Err? {
        return Err(tid.error);
      }
      if tid.value.None? {
        return Ok(());
      }
      var item := manifest.Pop(tid.value);
      if item.Err? {
        return Err(item.error);
      }
      tocItem := Some(item.value);
      r := LoadNcx();
    }

    /** The second half of `_read_toc`: the NCX member of `_toc_item` is
        parsed, its top-level navPoints appended, and its title taken. */
    method LoadNcx() returns (r: Result<()>)
      requires tocItem.Some?
      modifies toc
      ensures var ncx := OpenItem(zf, opfpath, tocItem.value.href);
        (r.Ok? <==> ncx.Ok? && Epub2.NcxEntries(ncx.value).Ok?) &&
        (r.Err? ==> r.error == if ncx.Err? then ncx.error else Epub2.NcxEntries(ncx.value).error)
      ensures r.Ok? ==>
        var ncx := OpenItem(zf, opfpath, tocItem.value.href);
        ncx.Ok? && Epub2.NcxEntries(ncx.value).Ok? &&
        toc.nodes == old(toc.nodes) + LiftAll(Epub2.NcxEntries(ncx.value).value) &&
        toc.title == (if Epub2.NcxTitle(ncx.value).Some? then Epub2.NcxTitle(ncx.value).value else old(toc.title))
    {
      var ncx := OpenItem(zf, opfpath, tocItem.value.href);
      if ncx.Err? {
        return Err(ncx.error);
      }
      var doc := ncx.value;
      var appended := AppendNavPoints(toc, doc);
      if appended.Err? {
        return appended;
      }
      assert toc.nodes == old(toc.nodes) + LiftAll(Epub2.NcxEntries(doc).value);
      var title := Find(doc, [Epub2.DOC_TITLE, Epub2.TEXT]);
      if title.Some? {
        toc.title := title.value.text;
      }
      assert toc.title == (if Epub2.NcxTitle(doc).Some? then Epub2.NcxTitle(doc).value else old(toc.title));
      r := Ok(());
    }

    /** The monolith's `Epub20._write_toc`: the NCX is written at the path of
        `_toc_item`, which is added to the manifest. */
    method WriteNcx()
      requires manifest.Valid() && tocItem.Some?
      modifies manifest, zf`writes
      ensures manifest.Valid()
      ensures manifest.entries == Lifecycle.Registered(old(manifest.entries), tocItem.value)
      ensures zf.writes == old(zf.writes) +
        [(Join(DirName(opfpath), tocItem.value.href), Doc(MonoNcxDoc(toc.title, toc.nodes)))]
    {
      var _ := WriteStr(manifest, zf, opfpath, Existing(tocItem.value), Doc(MonoNcxDoc(toc.title, toc.nodes)));
    }

    /** The monolith's `_write_opf` at time `now`. It never succeeds:
        without `_toc_item` (every document opened for writing) reading it
        is an AttributeError; EPUB 3's `_write_toc` reads `self.toc.item`;
        and once EPUB 2 has written its NCX, the package fails on the uid,
        on the metadata, or at the latest on `_xml_manifest`. */
    method WriteOpf(now: Date) returns (r: Result<()>)
      requires Valid()
      modifies this`meta, manifest, zf`writes
      ensures Valid()
      ensures meta == old(meta).(dates := old(meta).dates.(modification := Some(now)))
      ensures r.Err?
      ensures tocItem.None? || dialect == Epub30 ==>
        r == Err(AttributeError) && manifest.entries == old(manifest.entries) && zf.writes == old(zf.writes)
      ensures tocItem.Some? && dialect == Epub20 ==>
        manifest.entries == Lifecycle.Registered(old(manifest.entries), tocItem.value) &&
        zf.writes == old(zf.writes) +
          [(Join(DirName(opfpath), tocItem.value.href), Doc(MonoNcxDoc(toc.title, toc.nodes)))] &&
        r == Err(WriteError(uid, meta))
    {
      meta := meta.(dates := meta.dates.(modification := Some(now)));
      if tocItem.None? || dialect == Epub30 {
        return Err(AttributeError);
      }
      WriteNcx();
      if uid.None? {
        return Err(TypeError);
      }
      var id := uid.value.Index("id");
      if id.Err? {
        return Err(id.error);
      }
      Lifecycle.WellShapedIsShaped(meta, Epub2.META);
      var md := XmlMeta(meta, Epub2.META);
      if md.Err? {
        return Err(md.error);
      }
      var man := MonoXmlManifest(dialect, Values(manifest.entries), guess);
      r := Err(man.error);
    }
  }
}
