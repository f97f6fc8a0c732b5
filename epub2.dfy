/** The OPF 2.0.1 dialect (dawn/epub2.py): the NCX table of contents, the
    Dublin Core table with `opf:` attributes and `opf:event` dates, and the
    backing NCX item in the manifest and spine. */
module Epub2 {
  import opened Wrappers
  import opened Xml
  import opened Utils
  import opened Zip
  import opened Epub

  const NAV_MAP := Q(Ncx, "navMap")
  const NAV_POINT := Q(Ncx, "navPoint")
  const NAV_LABEL := Q(Ncx, "navLabel")
  const CONTENT := Q(Ncx, "content")
  const TEXT := Q(Ncx, "text")
  const DOC_TITLE := Q(Ncx, "docTitle")

  // ------------------------------------------------------ reading the NCX

  /** One navPoint as `parse` yields it and `TocItems.append` takes it in:
      the tuple (`content@src`, `navLabel/text` text) is evaluated first, a
      missing element being an AttributeError on None; then `append` refuses
      a None href (not a str, not an item) and a None title, and expands the
      nested navPoints in document order. */
  function NavPointNode(np: Element): (r: Result<TocNode>)
    ensures Find(np, [CONTENT]).None? ==> r == Err(AttributeError)
    ensures r.Ok? ==>
      Find(np, [CONTENT]).Some? && GetXmlAttr(Find(np, [CONTENT]).value, "src") == Ok(Some(r.value.href)) &&
      Find(np, [NAV_LABEL, TEXT]).Some? && Find(np, [NAV_LABEL, TEXT]).value.text == Some(r.value.title)
    decreases np, 1, 0
  {
    match Find(np, [CONTENT])
    case None => Err(AttributeError)
    case Some(c) =>
      match GetXmlAttr(c, "src")
      case Err(x) => Err(x)
      case Ok(src) =>
        match Find(np, [NAV_LABEL, TEXT])
        case None => Err(AttributeError)
        case Some(l) =>
          if src.None? || l.text.None? then Err(TypeError)
          else
            match NavPointsFrom(np, 0)
            case Err(x) => Err(x)
            case Ok(cs) => Ok(TocNode(src.value, l.text.value, cs))
  }

  /** The navPoints under the navMap children of `np` from the i-th child on. */
  function NavPointsFrom(np: Element, i: nat): Result<seq<TocNode>>
    requires i <= |np.children|
    decreases np, 0, |np.children| - i
  {
    if i == |np.children| then Ok([])
    else if np.children[i].tag == NAV_MAP then
      match NavListFrom(np.children[i], 0)
      case Err(x) => Err(x)
      case Ok(ns) => Prepend(ns, NavPointsFrom(np, i + 1))
    else NavPointsFrom(np, i + 1)
  }

  /** The navPoint children of the navMap `m` from the j-th child on. */
  function NavListFrom(m: Element, j: nat): Result<seq<TocNode>>
    requires j <= |m.children|
    decreases m, 0, |m.children| - j
  {
    if j == |m.children| then Ok([])
    else if m.children[j].tag == NAV_POINT then
      match NavPointNode(m.children[j])
      case Err(x) => Err(x)
      case Ok(n) => Prepend([n], NavListFrom(m, j + 1))
    else NavListFrom(m, j + 1)
  }

  lemma {:induction false} NavListSelects(m: Element, j: nat)
    requires j <= |m.children|
    ensures NavListFrom(m, j) == MapResult(Tagged(m.children[j..], NAV_POINT), NavPointNode)
    decreases |m.children| - j
  {
    var cs := m.children[j..];
    if j < |m.children| {
      NavListSelects(m, j + 1);
      assert cs[0] == m.children[j] && cs[1..] == m.children[j + 1..];
      if m.children[j].tag == NAV_POINT {
        MapResultConcat([m.children[j]], Tagged(m.children[j + 1..], NAV_POINT), NavPointNode);
        assert [m.children[j]][1..] == [];
        match NavPointNode(m.children[j])
        case Err(_) =>
        case Ok(n) => assert MapResult([m.children[j]], NavPointNode) == Ok([n]) by {
          assert [n] + [] == [n];
        }
      } else {
        assert Tagged(cs, NAV_POINT) == Tagged(cs[1..], NAV_POINT);
      }
    }
  }

  lemma {:induction false} NavPointsSelects(np: Element, i: nat)
    requires i <= |np.children|
    ensures NavPointsFrom(np, i) == MapResult(SelectAll(Tagged(np.children[i..], NAV_MAP), [NAV_POINT]), NavPointNode)
    decreases |np.children| - i
  {
    var cs := np.children[i..];
    if i < |np.children| {
      NavPointsSelects(np, i + 1);
      assert cs[0] == np.children[i] && cs[1..] == np.children[i + 1..];
      var rest := SelectAll(Tagged(np.children[i + 1..], NAV_MAP), [NAV_POINT]);
      if np.children[i].tag == NAV_MAP {
        var m := np.children[i];
        NavListSelects(m, 0);
        assert m.children[0..] == m.children;
        SelectOneStep(m, NAV_POINT);
        assert Tagged(cs, NAV_MAP) == [m] + Tagged(cs[1..], NAV_MAP);
        assert SelectAll(Tagged(cs, NAV_MAP), [NAV_POINT]) == Select(m, [NAV_POINT]) + rest;
        MapResultConcat(Select(m, [NAV_POINT]), rest, NavPointNode);
      } else {
        assert Tagged(cs, NAV_MAP) == Tagged(cs[1..], NAV_MAP);
      }
    } else {
      assert cs == [];
    }
  }

  /** The children of a read node are the expansions of the navPoints that
      `np.findall('./ncx:navMap/ncx:navPoint')` returns, one per navPoint, in
      document order. */
  lemma NavPointChildren(np: Element)
    ensures NavPointNode(np).Ok? ==>
      MapResult(Select(np, [NAV_MAP, NAV_POINT]), NavPointNode) == Ok(NavPointNode(np).value.children)
  {
    NavPointsSelects(np, 0);
    assert np.children[0..] == np.children;
    assert [NAV_MAP, NAV_POINT][1..] == [NAV_POINT];
  }

  /** `getxmlattr(opftree.find('./opf:spine'), 'toc')`. */
  function TocId(opf: Element): Result<Option<string>>
  {
    GetXmlAttrOf(Find(opf, [Q(Opf, "spine")]), "toc")
  }

  /** The entries `_read_toc` appends for an NCX document. */
  function NcxEntries(ncx: Element): Result<seq<TocNode>>
  {
    MapResult(Select(ncx, [NAV_MAP, NAV_POINT]), NavPointNode)
  }

  /** The `docTitle/text` element's text, when the element is there. */
  function NcxTitle(ncx: Element): Option<Option<string>>
  {
    match Find(ncx, [DOC_TITLE, TEXT])
    case None => None
    case Some(t) => Some(t.text)
  }

  /** `for a in parse(ncx): self.toc.append(*a)`: the top-level navPoints
      are expanded and appended one after the other. */
  method AppendNavPoints(toc: Toc, ncx: Element) returns (r: Result<()>)
    modifies toc`entries
    ensures r.Ok? <==> NcxEntries(ncx).Ok?
    ensures r.Err? ==> r.error == NcxEntries(ncx).error
    ensures r.Ok? ==> toc.entries == old(toc.entries) + NcxEntries(ncx).value
  {
    r := AppendAll(toc, Select(ncx, [NAV_MAP, NAV_POINT]), NavPointNode);
  }

  /** The loop of `AppendNavPoints`, over any node builder `f`. */
  method AppendAll(toc: Toc, points: seq<Element>, f: Element -> Result<TocNode>) returns (r: Result<()>)
    modifies toc`entries
    ensures r.Ok? <==> MapResult(points, f).Ok?
    ensures r.Err? ==> r.error == MapResult(points, f).error
    ensures r.Ok? ==> toc.entries == old(toc.entries) + MapResult(points, f).value
  {
    var done: seq<TocNode> := [];
    var i := 0;
    assert points[i..] == points;
    assert Prepend(done, MapResult(points, f)) == MapResult(points, f) by {
      match MapResult(points, f)
      case Err(_) =>
      case Ok(ys) => assert done + ys == ys;
    }
    while i < |points|
      invariant 0 <= i <= |points|
      invariant MapResult(points, f) == Prepend(done, MapResult(points[i..], f))
      invariant toc.entries == old(toc.entries) + done
    {
      MapResultStep(points, i, f, done);
      var n := f(points[i]);
      if n.Err? {
        return Err(n.error);
      }
      toc.entries := toc.entries + [n.value];
      done := done + [n.value];
      i := i + 1;
    }
    assert points[i..] == [];
    assert done + [] == done;
    r := Ok(());
  }

  /** What `_read_toc` returns on a manifest holding `es`. It stops at the
      first of: the spine's `toc` lookup, a missing NCX item, an NCX member
      that does not parse, a navPoint that does not expand. */
  function TocOutcome(opf: Element, es: Entries, z: Archive, opfpath: string): Result<()>
    reads z
  {
    var tid := TocId(opf);
    if tid.Err? then Err(tid.error)
    else if tid.value.None? then Ok(())
    else if !HasKey(es, tid.value) then Err(KeyError(tid.value))
    else NcxOutcome(z, opfpath, Lookup(es, tid.value).value.href)
  }

  /** What the second half of `_read_toc` returns: the NCX member must
      parse, then every top-level navPoint must expand. */
  function NcxOutcome(z: Archive, opfpath: string, href: string): Result<()>
    reads z
  {
    var ncx := OpenItem(z, opfpath, href);
    if ncx.Err? then Err(ncx.error)
    else if NcxEntries(ncx.value).Err? then Err(NcxEntries(ncx.value).error)
    else Ok(())
  }

  /** `Epub20._read_toc`. Without a `toc` attribute on the spine nothing
      changes. Otherwise the NCX item is popped from the manifest into
      `toc.item`, the NCX member is parsed, every top-level navPoint is
      appended in turn, and the `docTitle` text, if there is one, becomes
      the title. */
  method ReadToc(opf: Element, m: Manifest, toc: Toc, z: Archive, opfpath: string) returns (r: Result<()>)
    requires m.Valid()
    modifies m, toc
    ensures m.Valid()
    ensures TocId(opf).Err? ==> r == Err(TocId(opf).error)
    ensures TocId(opf) == Ok(None) ==> r == Ok(())
    ensures TocId(opf).Err? || TocId(opf) == Ok(None) ==>
      m.entries == old(m.entries) && toc.item == old(toc.item) && toc.entries == old(toc.entries) &&
      toc.title == old(toc.title)
    ensures TocId(opf).Ok? && TocId(opf).value.Some? ==>
      var k := TocId(opf).value;
      (!HasKey(old(m.entries), k) ==> r == Err(KeyError(k)) && m.entries == old(m.entries)) &&
      (HasKey(old(m.entries), k) ==>
        m.entries == Remove(old(m.entries), k) && toc.item == Some(Lookup(old(m.entries), k).value))
    ensures TocId(opf).Ok? && TocId(opf).value.Some? && HasKey(old(m.entries), TocId(opf).value) ==>
      var ncx := OpenItem(z, opfpath, Lookup(old(m.entries), TocId(opf).value).value.href);
      (r.Ok? <==> ncx.Ok? && NcxEntries(ncx.value).Ok?) &&
      (r.Err? ==> r.error == if ncx.Err? then ncx.error else NcxEntries(ncx.value).error)
    ensures r == TocOutcome(opf, old(m.entries), z, opfpath)
    ensures r.Ok? && TocId(opf).Ok? && TocId(opf).value.Some? ==>
      var ncx := OpenItem(z, opfpath, toc.item.value.href);
      ncx.Ok? && NcxEntries(ncx.value).Ok? &&
      toc.entries == old(toc.entries) + NcxEntries(ncx.value).value &&
      toc.title == (if NcxTitle(ncx.value).Some? then NcxTitle(ncx.value).value else old(toc.title))
  {
    var tid := TocId(opf);
    if tid.Err? {
      return Err(tid.error);
    }
    if tid.value.None? {
      return Ok(());
    }
    ghost var es := m.entries;
    var item := m.Pop(tid.value);
    if item.Err? {
      return Err(item.error);
    }
    toc.item := Some(item.value);
    r := LoadNcx(toc, z, opfpath, item.value.href);
    assert item.value == Lookup(es, tid.value).value;
  }

  /** The second half of `_read_toc`: the NCX member at `href` (that of
      `toc.item`) is
      parsed, its top-level navPoints appended, and its title taken. */
  method LoadNcx(toc: Toc, z: Archive, opfpath: string, href: string) returns (r: Result<()>)
    modifies toc`entries, toc`title
    ensures r.Ok? <==> OpenItem(z, opfpath, href).Ok? && NcxEntries(OpenItem(z, opfpath, href).value).Ok?
    ensures r.Err? ==>
      r.error == (if OpenItem(z, opfpath, href).Err? then OpenItem(z, opfpath, href).error
                  else NcxEntries(OpenItem(z, opfpath, href).value).error)
    ensures r == NcxOutcome(z, opfpath, href)
    ensures r.Ok? ==>
      var ncx := OpenItem(z, opfpath, href);
      ncx.Ok? && NcxEntries(ncx.value).Ok? &&
      toc.entries == old(toc.entries) + NcxEntries(ncx.value).value &&
      toc.title == (if NcxTitle(ncx.value).Some? then NcxTitle(ncx.value).value else old(toc.title))
  {
    var ncx := OpenItem(z, opfpath, href);
    if ncx.Err? {
      return Err(ncx.error);
    }
    var doc := ncx.value;
    var appended := AppendNavPoints(toc, doc);
    if appended.Err? {
      return appended;
    }
    TakeTitle(toc, doc);
    r := Ok(());
  }

  /** The end of `_read_toc`: a `docTitle` text, when there is one,
      becomes the title. */
  method TakeTitle(toc: Toc, ncx: Element)
    modifies toc`title
    ensures toc.title == if NcxTitle(ncx).Some? then NcxTitle(ncx).value else old(toc.title)
  {
    var title := Find(ncx, [DOC_TITLE, TEXT]);
    if title.Some? {
      toc.title := title.value.text;
    }
  }

  // ------------------------------------------------------ reading metadata

  /** The Dublin Core table of this dialect: tag, attribute names, and
      whether the field holds a list. */
  const META: seq<Row> := [
    Row("title", ["lang"], true, "titles"),
    Row("creator", ["opf:role", "opf:file-as"], true, "creators"),
    Row("subject", [], true, "subjects"),
    Row("description", [], false, "description"),
    Row("publisher", [], false, "publisher"),
    Row("contributor", ["opf:role", "opf:file-as"], true, "contributors"),
    Row("identifier", ["id", "opf:scheme"], true, "identifiers"),
    Row("source", [], false, "source"),
    Row("language", [], true, "languages")]

  /** Each row's key is its tag, pluralised for a list field. */
  lemma MetaKeyed()
    ensures KeyedRows(META)
  {
    assert Keyed(META[0]);
    assert Keyed(META[1]);
    assert Keyed(META[2]);
    assert Keyed(META[3]);
    assert Keyed(META[4]);
    assert Keyed(META[5]);
    assert Keyed(META[6]);
    assert Keyed(META[7]);
    assert Keyed(META[8]);
  }

  /** `AttributedString(t.text, **attrs)` for one element of a row. */
  function Extract(t: Element, keys: seq<string>): (r: Result<AS>)
    ensures r.Ok? <==> forall i :: 0 <= i < |keys| ==> GetXmlAttr(t, keys[i]).Ok?
    ensures r.Err? ==> exists i :: 0 <= i < |keys| && GetXmlAttr(t, keys[i]) == Err(r.error) && (forall j :: 0 <= j < i ==> GetXmlAttr(t, keys[j]).Ok?)
    ensures r.Ok? ==> r.value.value == TextValue(t.text) && AttrsOf(t, keys) == Ok(r.value.attrs)
    ensures r.Ok? ==> forall k :: k in r.value.attrs <==> exists i :: 0 <= i < |keys| && LocalName(keys[i]) == k && Present(t, keys[i])
    ensures r.Ok? ==> forall i :: LastPresent(t, keys, i) ==>
      LocalName(keys[i]) in r.value.attrs && r.value.attrs[LocalName(keys[i])] == GetXmlAttr(t, keys[i]).value
  {
    AttrsOfFails(t, keys);
    AttrsOfKeys(t, keys);
    AttrsOfValues(t, keys);
    match AttrsOf(t, keys)
    case Err(x) => Err(x)
    case Ok(m) => Ok(AS(TextValue(t.text), m))
  }

  function Extractor(row: Row): Element -> Result<AS>
  {
    e => Extract(e, row.attrs)
  }

  /** `opftree.find('./opf:metadata')`. */
  function Metadata(opf: Element): Option<Element>
  {
    Find(opf, [Q(Opf, "metadata")])
  }

  /** `parse_date(astr)` on an attributed string: its length is the number
      of its attributes, and a length that picks a format hands the
      attributed string (not a str) to `strptime`, a TypeError. */
  function EventDate(a: AS): (r: Result<Option<Date>>)
    ensures r != Ok(None) ==> r == Err(TypeError) && |a.attrs| in {4, 7, 10, 20}
  {
    if FormatForLength(|a.attrs|).Some? then Err(TypeError) else Ok(None)
  }

  /** The date loop of `_read_meta` over the dc:date elements:
      `astr['event']` must exist, and a known event stores `parse_date(astr)`. */
  function ApplyDates(d: Dates, ts: seq<Element>): Result<Dates>
    decreases |ts|
  {
    if ts == [] then Ok(d)
    else
      match Extract(ts[0], ["opf:event"])
      case Err(x) => Err(x)
      case Ok(a) =>
        match a.Index("event")
        case Err(x) => Err(x)
        case Ok(ev) =>
          if ev.Some? && ev.value in DATE_KEYS then
            match EventDate(a)
            case Err(x) => Err(x)
            case Ok(v) => ApplyDates(WithDate(d, ev.value, v), ts[1..])
          else ApplyDates(d, ts[1..])
  }

  /** `Epub20._read_meta`: the table, then the dates. The absent metadata
      element fails on the first row's `None.findall`. */
  function ReadMetaSpec(opf: Element, meta: Meta): Result<Meta>
  {
    match Metadata(opf)
    case None => Err(AttributeError)
    case Some(md) =>
      match ReadRows(Some(md), META, Extractor, meta.fields)
      case Err(x) => Err(x)
      case Ok(fields) =>
        match ApplyDates(meta.dates, Tagged(md.children, Q(Dc, "date")))
        case Err(x) => Err(x)
        case Ok(d) => Ok(Meta(fields, d))
  }

  /** The metadata reading loops. */
  method ReadMeta(opf: Element, meta: Meta) returns (r: Result<Meta>)
    ensures r == ReadMetaSpec(opf, meta)
  {
    var md := Metadata(opf);
    if md.None? {
      return Err(AttributeError);
    }
    var fields := ReadTable(md, META, Extractor, meta.fields);
    if fields.Err? {
      return Err(fields.error);
    }
    var d := ReadDateElements(meta.dates, Tagged(md.value.children, Q(Dc, "date")));
    if d.Err? {
      return Err(d.error);
    }
    r := Ok(Meta(fields.value, d.value));
  }

  /** The date loop of `_read_meta`. */
  method ReadDateElements(d0: Dates, ts: seq<Element>) returns (r: Result<Dates>)
    ensures r == ApplyDates(d0, ts)
  {
    var d := d0;
    var i := 0;
    assert ts[i..] == ts;
    while i < |ts|
      invariant 0 <= i <= |ts|
      invariant ApplyDates(d0, ts) == ApplyDates(d, ts[i..])
    {
      assert ts[i..][0] == ts[i] && ts[i..][1..] == ts[i + 1..];
      var a := Extract(ts[i], ["opf:event"]);
      if a.Err? {
        return Err(a.error);
      }
      var ev := a.value.Index("event");
      if ev.Err? {
        return Err(ev.error);
      }
      if ev.value.Some? && ev.value.value in DATE_KEYS {
        var v := EventDate(a.value);
        if v.Err? {
          return Err(v.error);
        }
        d := WithDate(d, ev.value.value, v.value);
      }
      i := i + 1;
    }
    r := Ok(d);
  }

  /** `getxmlattr(t, 'opf:event')` reads the OPF-namespaced event attribute. */
  lemma EventAttr(t: Element)
    ensures GetXmlAttr(t, "opf:event") == Ok(t.Get(Clark(OPF_URI, "event")))
    ensures LocalName("opf:event") == "event"
  {
    SplitPrefixed("opf", "event");
    assert "opf:event" == "opf" + ":" + "event";
  }

  /** What the date loop reads from a dc:date: its text, and the OPF event
      attribute under the key "event" when it is present. */
  lemma EventExtract(t: Element)
    ensures Extract(t, ["opf:event"]) == Ok(AS(TextValue(t.text),
      if t.Get(Clark(OPF_URI, "event")).Some? then map["event" := t.Get(Clark(OPF_URI, "event"))] else map[]))
  {
    EventAttr(t);
    assert ["opf:event"][..0] == [];
  }

  /** The 2.0 reader never stores a date: every known event stores
      `parse_date(astr)`, which is None for an attributed string holding
      the single `event` attribute. A date the reader starts without
      stays absent. */
  lemma {:induction false} ReadDatesStayUnset(d: Dates, ts: seq<Element>)
    requires ApplyDates(d, ts).Ok?
    ensures ApplyDates(d, ts).value.creation in {None, d.creation}
    ensures ApplyDates(d, ts).value.publication in {None, d.publication}
    ensures ApplyDates(d, ts).value.modification in {None, d.modification}
    decreases |ts|
  {
    if ts != [] {
      EventExtract(ts[0]);
      var a := Extract(ts[0], ["opf:event"]).value;
      assert |a.attrs| <= 1;
      var ev := a.Index("event").value;
      if ev.Some? && ev.value in DATE_KEYS {
        assert EventDate(a) == Ok(None);
        ReadDatesStayUnset(WithDate(d, ev.value, None), ts[1..]);
      } else {
        ReadDatesStayUnset(d, ts[1..]);
      }
    }
  }

  /** A dc:date without an `opf:event` attribute makes the reader fail with
      KeyError('event'). */
  lemma DateWithoutEventFails(d: Dates, t: Element, rest: seq<Element>)
    requires Clark(OPF_URI, "event") !in t.attrs
    ensures ApplyDates(d, [t] + rest) == Err(KeyError(Some("event")))
  {
    EventExtract(t);
    assert ([t] + rest)[0] == t;
  }

  /** Every dc:date the writer emits reads back as None: the dates do not
      survive a write and a read. */
  lemma WrittenDatesReadAsNone(d: Dates)
    ensures ApplyDates(d, DateElements(d)) == Ok(NO_DATES)
  {
    var c := DateElementIf("creation", d.creation);
    var p := DateElementIf("publication", d.publication);
    var m := DateElementIf("modification", d.modification);
    var d1 := d.(creation := None);
    var d2 := d1.(publication := None);
    assert DateElements(d) == c + (p + m);
    assert ApplyDates(d, c + (p + m)) == ApplyDates(d1, p + m) by {
      DatesStep(d, "creation", d.creation, p + m, d1);
    }
    assert ApplyDates(d1, p + m) == ApplyDates(d2, m) by {
      DatesStep(d1, "publication", d.publication, m, d2);
    }
    assert ApplyDates(d2, m + []) == ApplyDates(NO_DATES, []) by {
      DatesStep(d2, "modification", d.modification, [], NO_DATES);
    }
    assert m + [] == m;
  }

  /** One possibly written date element, read back. */
  lemma DatesStep(d: Dates, k: DateKey, v: Option<Date>, rest: seq<Element>, d': Dates)
    requires d' == if v.Some? then WithDate(d, k, None) else d
    ensures ApplyDates(d, DateElementIf(k, v) + rest) == ApplyDates(d', rest)
  {
    if v.Some? {
      var t := DateElement(k, v.value);
      assert ([t] + rest)[0] == t && ([t] + rest)[1..] == rest;
      DateElementRead(k, v.value);
    } else {
      assert [] + rest == rest;
    }
  }

  /** A written dc:date reads back as its event and a date of None. */
  lemma DateElementRead(k: DateKey, v: Date)
    ensures Extract(DateElement(k, v), ["opf:event"]).Ok?
    ensures Extract(DateElement(k, v), ["opf:event"]).value.Index("event") == Ok(Some(k))
    ensures EventDate(Extract(DateElement(k, v), ["opf:event"]).value) == Ok(None)
  {
    var t := DateElement(k, v);
    EventExtract(t);
    assert t.Get(Clark(OPF_URI, "event")) == Some(k);
    var a := AS(TextValue(t.text), map["event" := Some(k)]);
    assert Extract(t, ["opf:event"]) == Ok(a);
    assert |a.attrs| == 1;
  }

  // ------------------------------------------------------ writing metadata

  /** A value `if val:` lets through: a non-empty string. */
  predicate Kept(v: Option<string>)
  {
    v.Some? && v.value != ""
  }

  /** The attributes `_xml_meta` puts on a value's element:
      `tag.attrib[ns(k)] = astr.get(local name of k)` for every key whose
      value is kept, in key order. */
  function WrittenAttrs(a: AS, keys: seq<string>): Result<map<string, string>>
    decreases |keys|
  {
    if keys == [] then Ok(map[])
    else
      var k := keys[|keys| - 1];
      match WrittenAttrs(a, keys[..|keys| - 1])
      case Err(x) => Err(x)
      case Ok(m) =>
        if Kept(a.Get(LocalName(k))) then
          match Ns(k)
          case Err(x) => Err(x)
          case Ok(q) => Ok(m[q := a.Get(LocalName(k)).value])
        else Ok(m)
  }

  /** The attribute dict a written value carries after a read: the kept
      values, each under its key's local name. */
  function KeptAttrs(a: AS, keys: seq<string>): map<string, Option<string>>
    decreases |keys|
  {
    if keys == [] then map[]
    else
      var k := keys[|keys| - 1];
      var m := KeptAttrs(a, keys[..|keys| - 1]);
      if Kept(a.Get(LocalName(k))) then m[LocalName(k) := a.Get(LocalName(k))] else m
  }

  predicate TableKeys(keys: seq<string>)
  {
    forall i :: 0 <= i < |keys| ==> TableKey(keys[i])
  }

  lemma TableKeysPrefix(keys: seq<string>, n: nat)
    requires TableKeys(keys) && n <= |keys|
    ensures TableKeys(keys[..n])
  {
    forall i | 0 <= i < n ensures TableKey(keys[..n][i]) {
      assert keys[..n][i] == keys[i];
    }
  }

  /** The writer cannot fail on table keys. */
  lemma {:induction false} WrittenAttrsOk(a: AS, keys: seq<string>)
    requires TableKeys(keys)
    ensures WrittenAttrs(a, keys).Ok?
    ensures forall q :: q in WrittenAttrs(a, keys).value ==>
      exists i :: 0 <= i < |keys| && Ns(keys[i]) == Ok(q)
    decreases |keys|
  {
    if keys != [] {
      var init := keys[..|keys| - 1];
      TableKeysPrefix(keys, |keys| - 1);
      WrittenAttrsOk(a, init);
      assert TableKey(keys[|keys| - 1]);
      TableKeyNs(keys[|keys| - 1]);
      var m := WrittenAttrs(a, init).value;
      forall q | q in WrittenAttrs(a, keys).value ensures exists i :: 0 <= i < |keys| && Ns(keys[i]) == Ok(q) {
        if q in m {
          var i :| 0 <= i < |init| && Ns(init[i]) == Ok(q);
          assert keys[i] == init[i];
        } else {
          assert Ns(keys[|keys| - 1]) == Ok(q);
        }
      }
    }
  }

  /** Which attribute keys the writer sets: the key of the i-th name is set
      exactly when its value is kept, and then holds that value. */
  lemma {:induction false} WrittenAttrsAt(a: AS, keys: seq<string>, i: nat)
    requires TableKeys(keys) && i < |keys|
    ensures WrittenAttrs(a, keys).Ok? && Ns(keys[i]).Ok?
    ensures Ns(keys[i]).value in WrittenAttrs(a, keys).value <==> Kept(a.Get(LocalName(keys[i])))
    ensures Kept(a.Get(LocalName(keys[i]))) ==>
      WrittenAttrs(a, keys).value[Ns(keys[i]).value] == a.Get(LocalName(keys[i])).value
    decreases |keys|
  {
    WrittenAttrsOk(a, keys);
    var init := keys[..|keys| - 1];
    var k := keys[|keys| - 1];
    assert TableKey(k) && TableKey(keys[i]);
    TableKeyNs(k);
    TableKeyNs(keys[i]);
    TableKeysPrefix(keys, |keys| - 1);
    if i < |init| {
      WrittenAttrsAt(a, init, i);
      assert keys[i] == init[i];
      if Ns(keys[i]).value == Ns(k).value {
        NsSharesLocalName(keys[i], k);
      }
    } else {
      WrittenAttrsOk(a, init);
      var m := WrittenAttrs(a, init).value;
      if !Kept(a.Get(LocalName(k))) && Ns(k).value in m {
        var j :| 0 <= j < |init| && Ns(init[j]) == Ok(Ns(k).value);
        WrittenAttrsAt(a, init, j);
        assert TableKey(init[j]);
        NsSharesLocalName(init[j], k);
      }
    }
  }

  /** The element written for a value, read back key by key: each key gives
      the kept value or nothing. */
  lemma ReadWrittenAttr(a: AS, keys: seq<string>, e: Element, i: nat)
    requires TableKeys(keys) && i < |keys|
    requires e.tag.ns == Some(DC_URI) && WrittenAttrs(a, keys) == Ok(e.attrs)
    ensures GetXmlAttr(e, keys[i]) == Ok(if Kept(a.Get(LocalName(keys[i]))) then a.Get(LocalName(keys[i])) else None)
  {
    WrittenAttrsOk(a, keys);
    WrittenAttrsAt(a, keys, i);
    var k := keys[i];
    assert TableKey(k);
    if ':' !in k && k !in e.attrs {
      assert DC_URI in RNS && RNS[DC_URI] == "dc";
      if Clark("dc", k) in e.attrs {
        var j :| 0 <= j < |keys| && Ns(keys[j]) == Ok(Clark("dc", k));
        assert TableKey(keys[j]);
        FallbackKeyIsNoTableKey(k, keys[j]);
      }
    }
  }

  /** Reading the attributes of a written element gives the kept ones. */
  lemma {:induction false} AttrsOfWritten(a: AS, all: seq<string>, keys: seq<string>, e: Element)
    requires TableKeys(all) && forall k :: k in keys ==> k in all
    requires e.tag.ns == Some(DC_URI) && WrittenAttrs(a, all) == Ok(e.attrs)
    ensures AttrsOf(e, keys) == Ok(KeptAttrs(a, keys))
    decreases |keys|
  {
    if keys != [] {
      var init := keys[..|keys| - 1];
      var k := keys[|keys| - 1];
      assert forall x :: x in init ==> x in keys;
      AttrsOfWritten(a, all, init, e);
      assert k in all;
      var i :| 0 <= i < |all| && all[i] == k;
      ReadWrittenAttr(a, all, e, i);
    }
  }

  /** The elements one row writes for its field `f`: nothing for a falsy
      field; otherwise the first value's `str(astr)` with its kept
      attributes, and for a second value of a list the call
      `getattr(E['dc'], tag)` with `tag` now rebound to the element just
      built, a TypeError. */
  function RowElements(row: Row, f: Field): (r: Result<seq<Element>>)
    requires f.Many? == row.multi
    ensures !f.Truthy() ==> r == Ok([])
    ensures r.Ok? ==> |r.value| <= 1 && forall e :: e in r.value ==> e.tag == Q(Dc, row.tag)
    ensures f.Truthy() && f.Many? && |f.items| > 1 && r.Ok? ==> false
  {
    if !f.Truthy() then Ok([])
    else
      var a := FirstValue(f);
      match a.Str()
      case Err(x) => Err(x)
      case Ok(s) =>
        match WrittenAttrs(a, row.attrs)
        case Err(x) => Err(x)
        case Ok(attrs) =>
          if f.Many? && |f.items| > 1 then Err(TypeError)
          else Ok([Element(Q(Dc, row.tag), attrs, Some(s), [])])
  }

  /** The value a truthy field writes first. */
  function FirstValue(f: Field): AS
    requires f.Truthy()
  {
    if f.Many? then f.items[0] else f.item.value
  }

  /** `self.meta.get(key)`: a missing key writes nothing. */
  function RowOutput(meta: Meta, row: Row): (r: Result<seq<Element>>)
    requires Shaped(meta, [row])
    ensures r.Ok? ==> |r.value| <= 1 && forall e :: e in r.value ==> e.tag == Q(Dc, row.tag)
  {
    if FieldKey(row) in meta.fields then RowElements(row, meta.fields[FieldKey(row)]) else Ok([])
  }

  /** The table loop of `_xml_meta`, row by row. */
  function RowsElements(meta: Meta, rows: seq<Row>): Result<seq<Element>>
    requires Shaped(meta, rows)
    decreases |rows|
  {
    if rows == [] then Ok([])
    else
      match RowOutput(meta, rows[0])
      case Err(x) => Err(x)
      case Ok(es) => Prepend(es, RowsElements(meta, rows[1..]))
  }

  /** `Epub20._xml_meta`: the format, the dates, then the table. */
  function MetadataElement(meta: Meta): Result<Element>
    requires Shaped(meta, META)
  {
    match RowsElements(meta, META)
    case Err(x) => Err(x)
    case Ok(es) => Ok(MetadataOf(DateElements(meta.dates) + es))
  }

  /** One step of RowsElements from the front. */
  lemma RowsElementsStep(meta: Meta, rows: seq<Row>, i: nat, es: seq<Element>)
    requires i < |rows| && Shaped(meta, rows[i..])
    ensures Shaped(meta, [rows[i]]) && Shaped(meta, rows[i + 1..])
    ensures RowOutput(meta, rows[i]).Err? ==> RowsElements(meta, rows[i..]) == Err(RowOutput(meta, rows[i]).error)
    ensures RowOutput(meta, rows[i]).Ok? ==>
      Prepend(es, RowsElements(meta, rows[i..])) ==
        Prepend(es + RowOutput(meta, rows[i]).value, RowsElements(meta, rows[i + 1..]))
  {
    assert rows[i..][0] == rows[i] && rows[i..][1..] == rows[i + 1..];
    assert rows[i] in rows[i..];
    assert forall r :: r in rows[i + 1..] ==> r in rows[i..];
    var out := RowOutput(meta, rows[i]);
    if out.Ok? {
      match RowsElements(meta, rows[i + 1..]) {
        case Err(_) =>
        case Ok(ys) => assert es + (out.value + ys) == (es + out.value) + ys;
      }
    }
  }

  /** The table loop of `_xml_meta`. */
  method XmlRows(meta: Meta, rows: seq<Row>) returns (r: Result<seq<Element>>)
    requires Shaped(meta, rows)
    ensures r == RowsElements(meta, rows)
  {
    var es: seq<Element> := [];
    var i := 0;
    assert rows[i..] == rows;
    assert Prepend(es, RowsElements(meta, rows)) == RowsElements(meta, rows) by {
      match RowsElements(meta, rows)
      case Err(_) =>
      case Ok(ys) => assert es + ys == ys;
    }
    while i < |rows|
      invariant 0 <= i <= |rows|
      invariant Shaped(meta, rows[i..])
      invariant RowsElements(meta, rows) == Prepend(es, RowsElements(meta, rows[i..]))
    {
      RowsElementsStep(meta, rows, i, es);
      ShapedSuffix(meta, rows, i + 1);
      var out := RowOutput(meta, rows[i]);
      if out.Err? {
        return Err(out.error);
      }
      es := es + out.value;
      i := i + 1;
    }
    assert rows[i..] == [];
    assert es + [] == es;
    r := Ok(es);
  }

  /** `Epub20._xml_meta`. */
  method XmlMeta(meta: Meta) returns (r: Result<Element>)
    requires Shaped(meta, META)
    ensures r == MetadataElement(meta)
  {
    var es := XmlRows(meta, META);
    if es.Err? {
      return Err(es.error);
    }
    r := Ok(MetadataOf(DateElements(meta.dates) + es.value));
  }

  // ------------------------------------------------- metadata round trip

  /** `self.meta.get(key)` for a row. */
  function FieldOf(meta: Meta, row: Row): Option<Field>
  {
    if FieldKey(row) in meta.fields then Some(meta.fields[FieldKey(row)]) else None
  }

  /** A written value as the reader rebuilds it: the same text, the kept
      attributes under their local names. */
  function Reread(a: AS, keys: seq<string>): AS
  {
    AS(a.value, KeptAttrs(a, keys))
  }

  /** The field a row reads back from what the writer wrote for `f`. */
  function ReadBack(row: Row, f: Option<Field>): Field
  {
    if f.Some? && f.value.Truthy() then
      var b := Reread(FirstValue(f.value), row.attrs);
      if row.multi then Many([b]) else One(Some(b))
    else if row.multi then Many([])
    else One(None)
  }

  /** A metadata the writer emits without failing: every truthy field of
      the table has the row's shape, holds one value, and that value's text
      is a str. */
  predicate Writable(meta: Meta)
  {
    WritableRows(meta, META)
  }

  predicate WritableRows(meta: Meta, rows: seq<Row>)
  {
    Shaped(meta, rows) &&
    forall r :: r in rows && FieldKey(r) in meta.fields && meta.fields[FieldKey(r)].Truthy() ==>
      FirstValue(meta.fields[FieldKey(r)]).value.Text? &&
      (meta.fields[FieldKey(r)].Many? ==> |meta.fields[FieldKey(r)].items| == 1)
  }

  /** What the round trip needs of a table: distinct tags and field keys,
      table keys as attribute names, and no tag the writer uses for
      something else. */
  predicate TableFacts(rows: seq<Row>)
  {
    DistinctTags(rows) && DistinctFieldKeys(rows) &&
    forall r :: r in rows ==> TableKeys(r.attrs) && r.tag != "format" && r.tag != "date"
  }

  predicate DistinctTags(rows: seq<Row>)
  {
    forall i, j :: 0 <= i < j < |rows| ==> rows[i].tag != rows[j].tag
  }

  /** The facts about the table the round trip rests on. */
  lemma MetaTable()
    ensures TableFacts(META)
  {
    MetaTags();
    MetaKeys();
    MetaAttrs();
  }

  lemma MetaTags()
    ensures DistinctTags(META)
  {
  }

  lemma MetaKeys()
    ensures DistinctFieldKeys(META)
  {
    assert FieldKey(META[0]) == "titles";
    assert FieldKey(META[1]) == "creators";
    assert FieldKey(META[2]) == "subjects";
    assert FieldKey(META[3]) == "description";
    assert FieldKey(META[4]) == "publisher";
    assert FieldKey(META[5]) == "contributors";
    assert FieldKey(META[6]) == "identifiers";
    assert FieldKey(META[7]) == "source";
    assert FieldKey(META[8]) == "languages";
  }

  lemma MetaAttrs()
    ensures forall r :: r in META ==> TableKeys(r.attrs) && r.tag != "format" && r.tag != "date"
  {
    TableKeyNames();
    forall r | r in META ensures TableKeys(r.attrs) && r.tag != "format" && r.tag != "date" {
      var i :| 0 <= i < |META| && META[i] == r;
      assert TableKeys(META[i].attrs);
    }
  }

  /** A second value in a list field makes the writer fail with a TypeError:
      writing the first value rebinds `tag` to the written element, and
      `getattr(E['dc'], tag)` refuses an element as an attribute name. */
  lemma SecondValueFails(row: Row, f: Field)
    requires row.multi && f.Many? && |f.items| > 1 && f.items[0].value.Text? && TableKeys(row.attrs)
    ensures RowElements(row, f) == Err(TypeError)
  {
    WrittenAttrsOk(f.items[0], row.attrs);
  }

  /** One written value, read back. */
  lemma ExtractWritten(a: AS, row: Row, e: Element)
    requires TableKeys(row.attrs) && a.value.Text?
    requires e.tag == Q(Dc, row.tag) && e.text == Some(a.value.s)
    requires WrittenAttrs(a, row.attrs) == Ok(e.attrs)
    ensures Extract(e, row.attrs) == Ok(Reread(a, row.attrs))
  {
    AttrsOfWritten(a, row.attrs, row.attrs, e);
  }

  /** Rows that each write without failing write together without failing. */
  lemma {:induction false} RowsAllOk(meta: Meta, rows: seq<Row>)
    requires Shaped(meta, rows)
    requires forall r :: r in rows ==> RowOutput(meta, r).Ok?
    ensures RowsElements(meta, rows).Ok?
    decreases |rows|
  {
    if rows != [] {
      ShapedSuffix(meta, rows, 1);
      assert forall r :: r in rows[1..] ==> r in rows;
      RowsAllOk(meta, rows[1..]);
    }
  }

  /** A tag no row carries selects nothing of what the rows write. */
  lemma {:induction false} RowsTaggedNone(meta: Meta, rows: seq<Row>, t: string)
    requires Shaped(meta, rows)
    requires forall r :: r in rows ==> RowOutput(meta, r).Ok? && r.tag != t
    ensures RowsElements(meta, rows).Ok?
    ensures Tagged(RowsElements(meta, rows).value, Q(Dc, t)) == []
    decreases |rows|
  {
    RowsAllOk(meta, rows);
    if rows != [] {
      ShapedSuffix(meta, rows, 1);
      assert forall r :: r in rows[1..] ==> r in rows;
      RowsTaggedNone(meta, rows[1..], t);
      var here := RowOutput(meta, rows[0]).value;
      TaggedConcat(here, RowsElements(meta, rows[1..]).value, Q(Dc, t));
      TaggedNone(here, Q(Dc, t));
    }
  }

  /** What the rows write, split by tag: on distinct tags, the elements
      tagged `t` are the ones the row with tag `t` writes. */
  lemma {:induction false} RowsTagged(meta: Meta, rows: seq<Row>, i: nat)
    requires Shaped(meta, rows) && DistinctTags(rows) && i < |rows|
    requires forall r :: r in rows ==> RowOutput(meta, r).Ok?
    ensures RowsElements(meta, rows).Ok?
    ensures Tagged(RowsElements(meta, rows).value, Q(Dc, rows[i].tag)) == RowOutput(meta, rows[i]).value
    decreases |rows|
  {
    RowsAllOk(meta, rows);
    var t := rows[i].tag;
    var rest := rows[1..];
    ShapedSuffix(meta, rows, 1);
    assert forall r :: r in rest ==> r in rows;
    var here := RowOutput(meta, rows[0]).value;
    RowsAllOk(meta, rest);
    TaggedConcat(here, RowsElements(meta, rest).value, Q(Dc, t));
    if i == 0 {
      TaggedAll(here, Q(Dc, t));
      forall r | r in rest ensures r.tag != t {
        var j :| 0 <= j < |rest| && rest[j] == r;
        assert rows[j + 1] == r;
      }
      RowsTaggedNone(meta, rest, t);
    } else {
      assert DistinctTags(rest) by {
        forall x, y | 0 <= x < y < |rest| ensures rest[x].tag != rest[y].tag {
          assert rest[x] == rows[x + 1] && rest[y] == rows[y + 1];
        }
      }
      assert rows[0].tag != t;
      TaggedNone(here, Q(Dc, t));
      assert rest[i - 1] == rows[i];
      RowsTagged(meta, rest, i - 1);
    }
  }

  /** A row of a writable metadata writes without failing. */
  lemma RowOutputOk(meta: Meta, rows: seq<Row>, r: Row)
    requires WritableRows(meta, rows) && r in rows && TableKeys(r.attrs)
    ensures RowOutput(meta, r).Ok?
  {
    if FieldKey(r) in meta.fields && meta.fields[FieldKey(r)].Truthy() {
      WrittenAttrsOk(FirstValue(meta.fields[FieldKey(r)]), r.attrs);
    }
  }

  /** A row reads back, from the elements it wrote, the first value it
      wrote with its kept attributes. */
  lemma RowReadBack(meta: Meta, rows: seq<Row>, r: Row, md: Element)
    requires WritableRows(meta, rows) && r in rows && TableKeys(r.attrs)
    requires RowOutput(meta, r).Ok? && Tagged(md.children, Q(Dc, r.tag)) == RowOutput(meta, r).value
    ensures ReadRow(Some(md), r, Extractor(r)) == Ok(ReadBack(r, FieldOf(meta, r)))
  {
    if FieldKey(r) in meta.fields && meta.fields[FieldKey(r)].Truthy() {
      var a := FirstValue(meta.fields[FieldKey(r)]);
      WrittenAttrsOk(a, r.attrs);
      var e := Element(Q(Dc, r.tag), WrittenAttrs(a, r.attrs).value, Some(a.value.s), []);
      assert RowOutput(meta, r).value == [e];
      ExtractWritten(a, r, e);
      if r.multi {
        assert [e][1..] == [];
        assert MapResult([e], Extractor(r)) == Ok([Reread(a, r.attrs)]) by {
          assert [Reread(a, r.attrs)] + [] == [Reread(a, r.attrs)];
        }
      }
    }
  }

  /** The metadata element written for `rows`. */
  function WrittenMetadata(meta: Meta, rows: seq<Row>): Element
    requires Shaped(meta, rows) && RowsElements(meta, rows).Ok?
  {
    MetadataOf(DateElements(meta.dates) + RowsElements(meta, rows).value)
  }

  /** In the written metadata element, a row's tag selects exactly what
      that row wrote. */
  lemma MetadataTagged(meta: Meta, rows: seq<Row>, i: nat)
    requires WritableRows(meta, rows) && TableFacts(rows) && i < |rows|
    ensures RowsElements(meta, rows).Ok? && RowOutput(meta, rows[i]).Ok?
    ensures Tagged(WrittenMetadata(meta, rows).children, Q(Dc, rows[i].tag)) == RowOutput(meta, rows[i]).value
  {
    forall r | r in rows ensures RowOutput(meta, r).Ok? {
      RowOutputOk(meta, rows, r);
    }
    var r := rows[i];
    var t := Q(Dc, r.tag);
    RowsTagged(meta, rows, i);
    var es := RowsElements(meta, rows).value;
    var ds := DateElements(meta.dates);
    assert WrittenMetadata(meta, rows).children == [FORMAT] + (ds + es);
    TaggedConcat([FORMAT], ds + es, t);
    TaggedConcat(ds, es, t);
    TaggedNone([FORMAT], t);
    TaggedNone(ds, t);
  }

  /** The round trip for any table with the facts above. */
  lemma RowsRoundTrip(meta: Meta, rows: seq<Row>, fields: map<string, Field>)
    requires WritableRows(meta, rows) && TableFacts(rows)
    ensures RowsElements(meta, rows).Ok?
    ensures ReadRows(Some(WrittenMetadata(meta, rows)), rows, Extractor, fields).Ok?
    ensures forall i :: 0 <= i < |rows| ==>
      FieldKey(rows[i]) in ReadRows(Some(WrittenMetadata(meta, rows)), rows, Extractor, fields).value &&
      ReadRows(Some(WrittenMetadata(meta, rows)), rows, Extractor, fields).value[FieldKey(rows[i])] ==
        ReadBack(rows[i], FieldOf(meta, rows[i]))
  {
    forall r | r in rows ensures RowOutput(meta, r).Ok? {
      RowOutputOk(meta, rows, r);
    }
    RowsAllOk(meta, rows);
    var md := WrittenMetadata(meta, rows);
    forall i | 0 <= i < |rows|
      ensures ReadRow(Some(md), rows[i], Extractor(rows[i])) == Ok(ReadBack(rows[i], FieldOf(meta, rows[i])))
    {
      MetadataTagged(meta, rows, i);
      RowReadBack(meta, rows, rows[i], md);
    }
    ReadRowsOk(Some(md), rows, Extractor, fields);
    ReadRowsStores(Some(md), rows, Extractor, fields);
  }

  /** Writing a writable metadata and reading it back: every row reads the
      first value written for it, with the same text and with the
      attributes of its row whose values are non-empty strings; an empty or
      absent field reads back empty. */
  lemma MetaRoundTrip(meta: Meta, fields: map<string, Field>)
    requires Writable(meta)
    ensures MetadataElement(meta).Ok?
    ensures ReadRows(Some(MetadataElement(meta).value), META, Extractor, fields).Ok?
    ensures forall i :: 0 <= i < |META| ==>
      FieldKey(META[i]) in ReadRows(Some(MetadataElement(meta).value), META, Extractor, fields).value &&
      ReadRows(Some(MetadataElement(meta).value), META, Extractor, fields).value[FieldKey(META[i])] ==
        ReadBack(META[i], FieldOf(meta, META[i]))
  {
    MetaTable();
    RowsRoundTrip(meta, META, fields);
  }

  /** The uid the writer synthesises, written as an identifier and read
      back, is the same attributed string when its value is a str. */
  lemma UidRoundTrip(s: string)
    ensures Reread(WriteUid(Text(s)), ["id", "opf:scheme"]) == WriteUid(Text(s))
  {
    var a := WriteUid(Text(s));
    assert LocalName("opf:scheme") == "scheme" by {
      LocalNamePrefixed("opf", "scheme");
      assert "opf:scheme" == "opf" + ":" + "scheme";
    }
    assert LocalName("id") == "id" by { BareTableKey("id"); }
    KeptAttrsStep(a, [], "id");
    KeptAttrsStep(a, ["id"], "opf:scheme");
  }

  /** KeptAttrs, one key at a time. */
  lemma KeptAttrsStep(a: AS, keys: seq<string>, k: string)
    ensures KeptAttrs(a, keys + [k]) ==
      if Kept(a.Get(LocalName(k))) then KeptAttrs(a, keys)[LocalName(k) := a.Get(LocalName(k))] else KeptAttrs(a, keys)
  {
    assert (keys + [k])[..|keys|] == keys;
  }

  // ------------------------------------------------- the package sections

  /** The manifest `_xml_manifest` serialises: the NCX item, when there is
      one, stored under its id. */
  function WithTocItem(es: Entries, tocItem: Option<Item>): Entries
  {
    if tocItem.Some? then Store(es, tocItem.value.iid, tocItem.value) else es
  }

  /** `Epub20._xml_manifest`: the NCX item is added, the manifest
      serialised, and the item deleted again; when the serialisation
      raises, the item stays in the manifest. */
  method XmlManifest2(m: Manifest, toc: Toc, guess: string -> Option<string>) returns (r: Result<Element>)
    requires m.Valid()
    modifies m
    ensures m.Valid()
    ensures r == ManifestElement(Values(WithTocItem(old(m.entries), toc.item)), guess)
    ensures toc.item.None? ==> m.entries == old(m.entries)
    ensures toc.item.Some? && r.Ok? ==> m.entries == Remove(WithTocItem(old(m.entries), toc.item), toc.item.value.iid)
    ensures toc.item.Some? && r.Err? ==> m.entries == WithTocItem(old(m.entries), toc.item)
  {
    if toc.item.Some? {
      var _ := m.Add(Existing(toc.item.value));
    }
    r := XmlManifest(m, guess);
    if r.Err? {
      return;
    }
    if toc.item.Some? {
      var _ := m.Delete(toc.item.value.iid);
    }
  }

  /** After a successful manifest write, the manifest is what it was but
      for an entry that shared the NCX item's id, which is gone. */
  lemma ManifestRestored(es: Entries, it: Item)
    requires DistinctKeys(es)
    ensures Remove(WithTocItem(es, Some(it)), it.iid) == Remove(es, it.iid)
    ensures !HasKey(es, it.iid) ==> Remove(WithTocItem(es, Some(it)), it.iid) == es
  {
    var k := it.iid;
    var r := Store(es, k, it);
    if HasKey(es, k) {
      var p := Position(es, k).value;
      var q := Position(r, k).value;
      assert r[p].0 == k;
      assert q == p;
      assert r[..p] == es[..p];
      assert r[p + 1..] == es[p + 1..];
    } else {
      assert r[|es|].0 == k;
      assert Position(r, k) == Some(|es|);
      assert r[..|es|] == es;
    }
  }

  /** The written manifest lists the NCX item. */
  lemma TocItemListed(es: Entries, it: Item, guess: string -> Option<string>)
    requires ManifestElement(Values(WithTocItem(es, Some(it))), guess).Ok?
    ensures exists c ::
      c in ManifestElement(Values(WithTocItem(es, Some(it))), guess).value.children && ItemElement(it, guess) == Ok(c)
  {
    var r := WithTocItem(es, Some(it));
    var p := Position(r, it.iid).value;
    if HasKey(es, it.iid) {
      assert r[p] == (it.iid, it) by {
        var p0 := Position(es, it.iid).value;
        assert r[p0].0 == it.iid;
      }
    } else {
      assert r[|es|] == (it.iid, it);
    }
    var c := ManifestElement(Values(r), guess).value.children[p];
    assert Values(r)[p] == it;
  }

  /** `Epub20._xml_spine`: the spine with a `toc` attribute naming the NCX
      item's id; lxml refuses a None id. */
  function SpineElement2(items: seq<Item>, tocItem: Option<Item>): (r: Result<Element>)
    ensures tocItem.None? ==> r == SpineElement(items)
    ensures tocItem.Some? && SpineElement(items).Ok? ==>
      (r.Ok? <==> tocItem.value.iid.Some?) && (r.Err? ==> r.error == TypeError)
    ensures r.Ok? && tocItem.Some? ==>
      SpineElement(items).Ok? && r.value.children == SpineElement(items).value.children && r.value.tag == Q(Opf, "spine") &&
      r.value.attrs == map["toc" := tocItem.value.iid.value]
  {
    match SpineElement(items)
    case Err(x) => Err(x)
    case Ok(sp) =>
      match tocItem
      case None => Ok(sp)
      case Some(it) =>
        if it.iid.None? then Err(TypeError) else Ok(sp.(attrs := sp.attrs["toc" := it.iid.value]))
  }

  method XmlSpine2(s: Spine, toc: Toc) returns (r: Result<Element>)
    ensures r == SpineElement2(s.items, toc.item)
  {
    r := XmlSpine(s);
    if r.Ok? && toc.item.Some? {
      if toc.item.value.iid.None? {
        r := Err(TypeError);
      } else {
        r := Ok(r.value.(attrs := r.value.attrs["toc" := toc.item.value.iid.value]));
      }
    }
  }

  /** The package built from the three sections gives the reader the NCX
      item's id back through the spine's `toc` attribute. */
  lemma WrittenTocId(version: string, uidId: string, md: Element, man: Element, items: seq<Item>, it: Item)
    requires md.tag == Q(Opf, "metadata") && man.tag == Q(Opf, "manifest")
    requires SpineElement2(items, Some(it)).Ok?
    ensures TocId(PackageElement(version, uidId, [md, man, SpineElement2(items, Some(it)).value])) == Ok(it.iid)
  {
    var sp := SpineElement2(items, Some(it)).value;
    var pkg := PackageElement(version, uidId, [md, man, sp]);
    var t := Q(Opf, "spine");
    SelectOneStep(pkg, t);
    assert [md, man, sp] == [md] + [man] + [sp];
    TaggedConcat([md] + [man], [sp], t);
    TaggedConcat([md], [man], t);
    TaggedSingle(md, t);
    TaggedSingle(man, t);
    TaggedSingle(sp, t);
    assert Select(pkg, [t]) == [sp];
  }

  // ------------------------------------------------------ writing the NCX

  /** `E['ncx'].navPoint(navLabel(text(title)), navMap(children...))`: the
      writer emits no `content` element. */
  function NavPointOf(n: TocNode): Element
    decreases n
  {
    Make(NAV_POINT, map[], [
      Make(NAV_LABEL, map[], [Element(TEXT, map[], Some(n.title), [])]),
      Make(NAV_MAP, map[], NavPointsOf(n.children))])
  }

  /** `navmap(toc)`: one navPoint per entry, in order. */
  function NavPointsOf(ns: seq<TocNode>): (r: seq<Element>)
    ensures |r| == |ns| && forall i :: 0 <= i < |ns| ==> r[i] == NavPointOf(ns[i])
    decreases ns
  {
    if ns == [] then [] else [NavPointOf(ns[0])] + NavPointsOf(ns[1..])
  }

  /** `title or ''`. */
  function OrEmpty(t: Option<string>): string
  {
    if t.Some? then t.value else ""
  }

  /** The NCX document `_write_toc` builds. */
  function NcxDoc(title: Option<string>, entries: seq<TocNode>): Element
  {
    Make(Q(Ncx, "ncx"), map["version" := "2005-1"], [
      Make(Q(Ncx, "head"), map[], []),
      Make(DOC_TITLE, map[], [Element(TEXT, map[], Some(OrEmpty(title)), [])]),
      Make(NAV_MAP, map[], NavPointsOf(entries))])
  }

  /** The NCX item a document without one gets. */
  const DEFAULT_NCX := Item(Some("__toc"), "toc.ncx")

  /** `Epub20._write_toc`: the NCX item (the default when there is none) is
      written with the NCX document, and added to the manifest unless it
      is already there under its id. */
  method WriteToc(m: Manifest, z: Archive, opfpath: string, toc: Toc)
    requires m.Valid()
    modifies m, z`writes, toc`item
    ensures m.Valid()
    ensures toc.item == Some(if old(toc.item).Some? then old(toc.item).value else DEFAULT_NCX)
    ensures HasKey(old(m.entries), toc.item.value.iid) ==> m.entries == old(m.entries)
    ensures !HasKey(old(m.entries), toc.item.value.iid) ==>
      m.entries == Store(old(m.entries), toc.item.value.iid, toc.item.value)
    ensures z.writes == old(z.writes) +
      [(Join(DirName(opfpath), toc.item.value.href), Doc(NcxDoc(toc.title, toc.entries)))]
  {
    if toc.item.None? {
      toc.item := Some(DEFAULT_NCX);
    }
    var _ := WriteStr(m, z, opfpath, Existing(toc.item.value), Doc(NcxDoc(toc.title, toc.entries)));
  }

  /** A written navPoint: no content, the label text is the title, and the
      nested navPoints are the children's, in order. */
  lemma NavPointShape(n: TocNode)
    ensures Find(NavPointOf(n), [CONTENT]) == None
    ensures Find(NavPointOf(n), [NAV_LABEL, TEXT]) == Some(Element(TEXT, map[], Some(n.title), []))
    ensures Select(NavPointOf(n), [NAV_MAP, NAV_POINT]) == NavPointsOf(n.children)
  {
    var e := NavPointOf(n);
    var lab := e.children[0];
    var nav := e.children[1];
    var text := Element(TEXT, map[], Some(n.title), []);
    assert e.children == [lab] + [nav];
    TaggedConcat([lab], [nav], CONTENT);
    TaggedConcat([lab], [nav], NAV_LABEL);
    TaggedConcat([lab], [nav], NAV_MAP);
    TaggedSingle(lab, CONTENT);
    TaggedSingle(nav, CONTENT);
    TaggedSingle(lab, NAV_LABEL);
    TaggedSingle(nav, NAV_LABEL);
    TaggedSingle(lab, NAV_MAP);
    TaggedSingle(nav, NAV_MAP);
    SelectOneStep(e, CONTENT);
    SelectThrough(e, NAV_LABEL, TEXT, lab);
    TaggedSingle(text, TEXT);
    SelectThrough(e, NAV_MAP, NAV_POINT, nav);
    TaggedAll(nav.children, NAV_POINT);
  }

  /** The NCX the writer emits reads back with the title it was written
      with (`''` for none), but a non-empty one fails: its first navPoint
      has no `content` element, an AttributeError. */
  lemma WrittenNcxReadBack(title: Option<string>, entries: seq<TocNode>)
    ensures NcxTitle(NcxDoc(title, entries)) == Some(Some(OrEmpty(title)))
    ensures entries == [] ==> NcxEntries(NcxDoc(title, entries)) == Ok([])
    ensures entries != [] ==> NcxEntries(NcxDoc(title, entries)) == Err(AttributeError)
  {
    var d := NcxDoc(title, entries);
    var head := d.children[0];
    var dt := d.children[1];
    var nav := d.children[2];
    var text := Element(TEXT, map[], Some(OrEmpty(title)), []);
    TaggedThree(head, dt, nav, DOC_TITLE);
    TaggedThree(head, dt, nav, NAV_MAP);
    SelectThrough(d, DOC_TITLE, TEXT, dt);
    TaggedSingle(text, TEXT);
    SelectThrough(d, NAV_MAP, NAV_POINT, nav);
    TaggedAll(nav.children, NAV_POINT);
    if entries != [] {
      NavPointShape(entries[0]);
      assert NavPointNode(NavPointOf(entries[0])) == Err(AttributeError);
    }
  }
}
