/** The OPF 3.0 dialect (dawn/epub3.py): the navigation item under the
    metadata, the Dublin Core table with refinements, the created / date /
    modified dates, and the XHTML navigation document. */
module Epub3 {
  import opened Wrappers
  import opened Xml
  import opened Utils
  import opened Zip
  import opened Epub
  import Epub2

  // ------------------------------------------------------- reading the toc

  /** `opftree.find('./opf:metadata/opf:item[@properties="nav"]')`, as a
      list of all matches. */
  function NavItems(opf: Element): seq<Element>
  {
    WithAttr(Select(opf, [Q(Opf, "metadata"), Q(Opf, "item")]), "properties", "nav")
  }

  /** `Epub30._read_toc`. Without a navigation item nothing changes. With
      one, `self.manifest.pop(toc_id)` is handed the element itself, which
      no manifest key equals: a KeyError before any state changes. */
  function ReadToc(opf: Element): (r: Result<()>)
    ensures r.Ok? <==> NavItems(opf) == []
    ensures r.Err? ==> r.error == ElementKeyError
  {
    if |NavItems(opf)| == 0 then Ok(()) else Err(ElementKeyError)
  }

  // ------------------------------------------------------ reading metadata

  /** The Dublin Core table of this dialect. */
  const META: seq<Row> := [
    Row("identifier", [], true, "identifiers"),
    Row("title", ["lang"], true, "titles"),
    Row("language", [], true, "languages"),
    Row("contributor", [], true, "contributors"),
    Row("creator", [], true, "creators"),
    Row("description", ["lang"], false, "description"),
    Row("publisher", ["lang"], false, "publisher"),
    Row("source", [], false, "source"),
    Row("subject", [], true, "subjects")]

  /** Each row's key is its tag, pluralised for a list field. */
  lemma MetaKeyed()
    ensures KeyedRows(META)
  {
    assert Keyed(META[0]);
    assert Keyed(META[1]);
    assert Keyed(META[2]);
    assert Keyed(META[3]);
    assert Keyed(META[4]);
    assert Keyed(META[5]);
    assert Keyed(META[6]);
    assert Keyed(META[7]);
    assert Keyed(META[8]);
  }

  /** The date tags and the keys they feed, in order. */
  const DATES: seq<(string, DateKey)> := [("created", "creation"), ("date", "publication"), ("modified", "modification")]

  /** `metadata.findall('meta/[@refine="#<id>"]')`: the un-namespaced
      `meta` children whose `refine` attribute is `#` and the id. */
  function Refinements(md: Element, id: string): (r: seq<Element>)
    ensures forall e :: e in r ==> e in md.children && e.tag == Tag(None, "meta") && e.Get("refine") == Some("#" + id)
  {
    TaggedMembers(md.children, Tag(None, "meta"));
    WithAttr(Tagged(md.children, Tag(None, "meta")), "refine", "#" + id)
  }

  /** `getxmlattr(refine, 'property')` on an un-namespaced element: the
      attribute, or the fallback's KeyError on the missing namespace. */
  function Property(e: Element): (r: Result<string>)
    requires e.tag.ns == None
    ensures r.Ok? <==> "property" in e.attrs
    ensures r.Ok? ==> r.value == e.attrs["property"]
    ensures r.Err? ==> r.error == KeyError(None)
  {
    if "property" in e.attrs then Ok(e.attrs["property"]) else Err(KeyError(None))
  }

  /** `res[getxmlattr(refine, 'property')] = refine.text` for each
      refinement in order. */
  function Refine(attrs: map<string, Option<string>>, rs: seq<Element>): Result<map<string, Option<string>>>
    requires forall e :: e in rs ==> e.tag.ns == None
    decreases |rs|
  {
    if rs == [] then Ok(attrs)
    else
      match Property(rs[0])
      case Err(x) => Err(x)
      case Ok(p) => Refine(attrs[p := rs[0].text], rs[1..])
  }

  /** `extract` for one element: the table attributes, then for an element
      with an id the `id` key and its refinements. */
  function Extract(md: Element, t: Element, keys: seq<string>): (r: Result<AS>)
    ensures GetXmlAttr(t, "id") == Ok(None) ==> r == Epub2.Extract(t, keys)
    ensures r.Ok? ==> r.value.value == TextValue(t.text)
  {
    match AttrsOf(t, keys)
    case Err(x) => Err(x)
    case Ok(m) =>
      match GetXmlAttr(t, "id")
      case Err(x) => Err(x)
      case Ok(None) => Ok(AS(TextValue(t.text), m))
      case Ok(Some(i)) =>
        match Refine(m["id" := Some(i)], Refinements(md, i))
        case Err(x) => Err(x)
        case Ok(m') => Ok(AS(TextValue(t.text), m'))
  }

  function Extractor(md: Element): Row -> Element -> Result<AS>
  {
    (r: Row) => (e: Element) => Extract(md, e, r.attrs)
  }

  /** An element with an id and no refinement gets exactly its table
      attributes and the id. */
  lemma ExtractWithId(md: Element, t: Element, keys: seq<string>, id: string)
    requires AttrsOf(t, keys).Ok? && GetXmlAttr(t, "id") == Ok(Some(id)) && Refinements(md, id) == []
    ensures Extract(md, t, keys) == Ok(AS(TextValue(t.text), AttrsOf(t, keys).value["id" := Some(id)]))
  {
  }

  /** Refinements that all name a property apply without error; every key
      already there stays, and every named property is set. */
  lemma {:induction false} RefineOk(attrs: map<string, Option<string>>, rs: seq<Element>)
    requires forall e :: e in rs ==> e.tag.ns == None && "property" in e.attrs
    ensures Refine(attrs, rs).Ok?
    ensures forall k :: k in attrs ==> k in Refine(attrs, rs).value
    ensures forall i :: 0 <= i < |rs| ==> rs[i].attrs["property"] in Refine(attrs, rs).value
    decreases |rs|
  {
    if rs != [] {
      assert forall e :: e in rs[1..] ==> e in rs;
      RefineOk(attrs[rs[0].attrs["property"] := rs[0].text], rs[1..]);
      forall i | 0 < i < |rs| ensures rs[i] == rs[1..][i - 1] {
      }
    }
  }

  /** A key no refinement names keeps its value. */
  lemma {:induction false} RefineKeeps(attrs: map<string, Option<string>>, rs: seq<Element>, k: string)
    requires forall e :: e in rs ==> e.tag.ns == None && "property" in e.attrs
    requires k in attrs && forall e :: e in rs ==> e.attrs["property"] != k
    ensures Refine(attrs, rs).Ok? && k in Refine(attrs, rs).value
    ensures Refine(attrs, rs).value[k] == attrs[k]
    decreases |rs|
  {
    RefineOk(attrs, rs);
    if rs != [] {
      assert forall e :: e in rs[1..] ==> e in rs;
      RefineKeeps(attrs[rs[0].attrs["property"] := rs[0].text], rs[1..], k);
    }
  }

  /** The last refinement of a property sets it: later ones win. */
  lemma {:induction false} RefineLast(attrs: map<string, Option<string>>, rs: seq<Element>, i: nat)
    requires forall e :: e in rs ==> e.tag.ns == None && "property" in e.attrs
    requires i < |rs| && forall j :: i < j < |rs| ==> rs[j].attrs["property"] != rs[i].attrs["property"]
    ensures Refine(attrs, rs).Ok? && rs[i].attrs["property"] in Refine(attrs, rs).value
    ensures Refine(attrs, rs).value[rs[i].attrs["property"]] == rs[i].text
    decreases |rs|
  {
    RefineOk(attrs, rs);
    var p := rs[0].attrs["property"];
    assert forall e :: e in rs[1..] ==> e in rs;
    if i == 0 {
      forall e | e in rs[1..] ensures e.attrs["property"] != p {
        var j :| 0 <= j < |rs[1..]| && rs[1..][j] == e;
        assert rs[j + 1] == e;
      }
      RefineKeeps(attrs[p := rs[0].text], rs[1..], p);
    } else {
      assert rs[i] == rs[1..][i - 1];
      forall j | i - 1 < j < |rs[1..]| ensures rs[1..][j].attrs["property"] != rs[1..][i - 1].attrs["property"] {
        assert rs[1..][j] == rs[j + 1];
      }
      RefineLast(attrs[p := rs[0].text], rs[1..], i - 1);
    }
  }

  /** `identifier['scheme'] = identifier.pop('identifier-type')` when the
      key is there. */
  function RenameScheme(a: AS): (r: AS)
    ensures r.value == a.value
    ensures "identifier-type" !in r.attrs
    ensures "identifier-type" in a.attrs ==> "scheme" in r.attrs && r.attrs["scheme"] == a.attrs["identifier-type"]
    ensures forall k :: k != "scheme" && k != "identifier-type" ==>
      (k in r.attrs <==> k in a.attrs) && (k in a.attrs ==> r.attrs[k] == a.attrs[k])
    ensures "identifier-type" !in a.attrs ==> r == a
  {
    if "identifier-type" in a.attrs then
      AS(a.value, (a.attrs - {"identifier-type"})["scheme" := a.attrs["identifier-type"]])
    else a
  }

  /** The renaming loop over the identifiers. */
  method RenameSchemes(ids: seq<AS>) returns (r: seq<AS>)
    ensures |r| == |ids| && forall i :: 0 <= i < |ids| ==> r[i] == RenameScheme(ids[i])
  {
    r := [];
    var i := 0;
    while i < |ids|
      invariant 0 <= i <= |ids| && |r| == i
      invariant forall j :: 0 <= j < i ==> r[j] == RenameScheme(ids[j])
    {
      r := r + [RenameScheme(ids[i])];
      i := i + 1;
    }
  }

  /** The identifiers renamed, when the table stored a list under
      `identifiers`. */
  function RenamedIdentifiers(fields: map<string, Field>): map<string, Field>
  {
    if "identifiers" in fields && fields["identifiers"].Many? then
      fields["identifiers" := Many(seq(|fields["identifiers"].items|,
        i requires 0 <= i < |fields["identifiers"].items| => RenameScheme(fields["identifiers"].items[i])))]
    else fields
  }

  /** `metadata.find('dc:<tag>')` for each date tag in turn: the first
      element's text goes through `parse_date`; `len(None)` is a TypeError. */
  function ReadDates(md: Element, d: Dates, tags: seq<(string, DateKey)>): Result<Dates>
    decreases |tags|
  {
    if tags == [] then Ok(d)
    else
      var rest := ReadDates(md, d, tags[..|tags| - 1]);
      var (tag, k) := tags[|tags| - 1];
      match rest
      case Err(x) => Err(x)
      case Ok(d') =>
        match Find(md, [Q(Dc, tag)])
        case None => Ok(d')
        case Some(e) =>
          if e.text.None? then Err(TypeError) else Ok(WithDate(d', k, ParseDate(e.text.value)))
  }

  /** `Epub30._read_meta`: the table, the identifier renaming, the dates.
      The absent metadata element fails on the first row's `None.findall`. */
  function ReadMetaSpec(opf: Element, meta: Meta): Result<Meta>
  {
    match Epub2.Metadata(opf)
    case None => Err(AttributeError)
    case Some(md) =>
      match ReadRows(Some(md), META, Extractor(md), meta.fields)
      case Err(x) => Err(x)
      case Ok(fields) =>
        match ReadDates(md, meta.dates, DATES)
        case Err(x) => Err(x)
        case Ok(d) => Ok(Meta(RenamedIdentifiers(fields), d))
  }

  method ReadMeta(opf: Element, meta: Meta) returns (r: Result<Meta>)
    ensures r == ReadMetaSpec(opf, meta)
  {
    var md := Epub2.Metadata(opf);
    if md.None? {
      return Err(AttributeError);
    }
    var read := ReadTable(md, META, Extractor(md.value), meta.fields);
    if read.Err? {
      return Err(read.error);
    }
    var fields := RenameIdentifiers(read.value);
    var d := ReadDateTags(md.value, meta.dates);
    if d.Err? {
      return Err(d.error);
    }
    r := Ok(Meta(fields, d.value));
  }

  /** The identifier loop of `_read_meta`. */
  method RenameIdentifiers(fields: map<string, Field>) returns (r: map<string, Field>)
    ensures r == RenamedIdentifiers(fields)
  {
    r := fields;
    if "identifiers" in fields && fields["identifiers"].Many? {
      var xs := fields["identifiers"].items;
      var ids := RenameSchemes(xs);
      assert ids == seq(|xs|, i requires 0 <= i < |xs| => RenameScheme(xs[i]));
      r := fields["identifiers" := Many(ids)];
    }
  }

  /** The date loop of `_read_meta`. */
  method ReadDateTags(md: Element, d0: Dates) returns (r: Result<Dates>)
    ensures r == ReadDates(md, d0, DATES)
  {
    var d := d0;
    var i := 0;
    assert DATES[..0] == [];
    while i < |DATES|
      invariant 0 <= i <= |DATES|
      invariant ReadDates(md, d0, DATES[..i]) == Ok(d)
    {
      assert DATES[..i + 1][..i] == DATES[..i];
      var (tag, k) := DATES[i];
      var e := Find(md, [Q(Dc, tag)]);
      if e.Some? {
        if e.value.text.None? {
          return Err(TypeError);
        }
        d := WithDate(d, k, ParseDate(e.value.text.value));
      }
      i := i + 1;
    }
    assert DATES[..i] == DATES;
    r := Ok(d);
  }

  // ------------------------------------------------------ writing metadata

  /** `{ns(k): astr[k.split(':', 1)[-1]] for k in keys}`, key by key in
      order: a missing attribute is a KeyError. */
  function IndexedAttrs(a: AS, keys: seq<string>): (r: Result<map<string, Option<string>>>)
    ensures r.Ok? ==> forall k :: k in r.value ==> exists i :: 0 <= i < |keys| && Ns(keys[i]) == Ok(k)
    decreases |keys|
  {
    if keys == [] then Ok(map[])
    else
      var k := keys[|keys| - 1];
      match IndexedAttrs(a, keys[..|keys| - 1])
      case Err(x) => Err(x)
      case Ok(m) =>
        match Ns(k)
        case Err(x) => Err(x)
        case Ok(q) =>
          match a.Index(LocalName(k))
          case Err(x) => Err(x)
          case Ok(v) => Ok(m[q := v])
  }

  /** lxml's element builder raises KeyError(NoneType) on a None attribute
      value. */
  function Attrib(m: map<string, Option<string>>): (r: Result<map<string, string>>)
    ensures r.Ok? <==> forall k :: k in m ==> m[k].Some?
    ensures r.Err? ==> r.error == NoneTypeKeyError
    ensures r.Ok? ==> r.value.Keys == m.Keys && forall k :: k in m ==> r.value[k] == m[k].value
  {
    if forall k :: k in m ==> m[k].Some? then Ok(map k | k in m :: m[k].value) else Err(NoneTypeKeyError)
  }

  /** `getattr(E['dc'], tag)(str(astr), {...})` for one value. */
  function ValueElement(row: Row, a: AS): (r: Result<Element>)
    ensures r.Ok? ==> r.value.tag == Q(Dc, row.tag) && r.value.children == []
  {
    match a.Str()
    case Err(x) => Err(x)
    case Ok(s) =>
      match IndexedAttrs(a, row.attrs)
      case Err(x) => Err(x)
      case Ok(m) =>
        match Attrib(m)
        case Err(x) => Err(x)
        case Ok(attrs) => Ok(Element(Q(Dc, row.tag), attrs, Some(s), []))
  }

  /** What one row writes for its field: nothing for a falsy field,
      otherwise one element per value. */
  function RowElements(row: Row, f: Field): (r: Result<seq<Element>>)
    requires f.Many? == row.multi
    ensures !f.Truthy() ==> r == Ok([])
    ensures r.Ok? ==> forall e :: e in r.value ==> e.tag == Q(Dc, row.tag)
  {
    if !f.Truthy() then Ok([])
    else
      var todo := if f.Many? then f.items else [f.item.value];
      MapResult(todo, (a: AS) => ValueElement(row, a))
  }

  function RowOutput(meta: Meta, row: Row): (r: Result<seq<Element>>)
    requires Shaped(meta, [row])
    ensures r.Ok? ==> forall e :: e in r.value ==> e.tag == Q(Dc, row.tag)
  {
    if FieldKey(row) in meta.fields then RowElements(row, meta.fields[FieldKey(row)]) else Ok([])
  }

  function RowsElements(meta: Meta, rows: seq<Row>): (r: Result<seq<Element>>)
    requires Shaped(meta, rows)
    decreases |rows|
  {
    if rows == [] then Ok([])
    else
      match RowOutput(meta, rows[0])
      case Err(x) => Err(x)
      case Ok(es) => Prepend(es, RowsElements(meta, rows[1..]))
  }

  /** Every element the table writes carries the tag of one of its rows. */
  lemma {:induction false} RowsElementsTags(meta: Meta, rows: seq<Row>, t: Tag)
    requires Shaped(meta, rows) && RowsElements(meta, rows).Ok?
    requires forall r :: r in rows ==> Q(Dc, r.tag) != t
    ensures Tagged(RowsElements(meta, rows).value, t) == []
    decreases |rows|
  {
    if rows != [] {
      ShapedSuffix(meta, rows, 1);
      assert forall r :: r in rows[1..] ==> r in rows;
      RowsElementsTags(meta, rows[1..], t);
      var es := RowOutput(meta, rows[0]).value;
      TaggedConcat(es, RowsElements(meta, rows[1..]).value, t);
      TaggedNone(es, t);
    }
  }

  /** `Epub30._xml_meta`: the format, the dates, then the table. */
  function MetadataElement(meta: Meta): Result<Element>
    requires Shaped(meta, META)
  {
    match RowsElements(meta, META)
    case Err(x) => Err(x)
    case Ok(es) => Ok(MetadataOf(DateElements(meta.dates) + es))
  }

  /** One step of RowsElements from the front. */
  lemma RowsElementsStep(meta: Meta, rows: seq<Row>, i: nat, es: seq<Element>)
    requires i < |rows| && Shaped(meta, rows[i..])
    ensures Shaped(meta, [rows[i]]) && Shaped(meta, rows[i + 1..])
    ensures RowOutput(meta, rows[i]).Err? ==> RowsElements(meta, rows[i..]) == Err(RowOutput(meta, rows[i]).error)
    ensures RowOutput(meta, rows[i]).Ok? ==>
      Prepend(es, RowsElements(meta, rows[i..])) ==
        Prepend(es + RowOutput(meta, rows[i]).value, RowsElements(meta, rows[i + 1..]))
  {
    assert rows[i..][0] == rows[i] && rows[i..][1..] == rows[i + 1..];
    assert rows[i] in rows[i..];
    assert forall r :: r in rows[i + 1..] ==> r in rows[i..];
    var out := RowOutput(meta, rows[i]);
    if out.Ok? {
      match RowsElements(meta, rows[i + 1..]) {
        case Err(_) =>
        case Ok(ys) => assert es + (out.value + ys) == (es + out.value) + ys;
      }
    }
  }

  /** The table loop of `_xml_meta`. */
  method XmlRows(meta: Meta, rows: seq<Row>) returns (r: Result<seq<Element>>)
    requires Shaped(meta, rows)
    ensures r == RowsElements(meta, rows)
  {
    var es: seq<Element> := [];
    var i := 0;
    assert rows[i..] == rows;
    assert Prepend(es, RowsElements(meta, rows)) == RowsElements(meta, rows) by {
      match RowsElements(meta, rows)
      case Err(_) =>
      case Ok(ys) => assert es + ys == ys;
    }
    while i < |rows|
      invariant 0 <= i <= |rows|
      invariant Shaped(meta, rows[i..])
      invariant RowsElements(meta, rows) == Prepend(es, RowsElements(meta, rows[i..]))
    {
      RowsElementsStep(meta, rows, i, es);
      ShapedSuffix(meta, rows, i + 1);
      var out := RowOutput(meta, rows[i]);
      if out.Err? {
        return Err(out.error);
      }
      es := es + out.value;
      i := i + 1;
    }
    assert rows[i..] == [];
    assert es + [] == es;
    r := Ok(es);
  }

  method XmlMeta(meta: Meta) returns (r: Result<Element>)
    requires Shaped(meta, META)
    ensures r == MetadataElement(meta)
  {
    var es := XmlRows(meta, META);
    if es.Err? {
      return Err(es.error);
    }
    r := Ok(MetadataOf(DateElements(meta.dates) + es.value));
  }

  // ------------------------------------------------- metadata properties

  /** A title, description or publisher without `lang` cannot be written:
      `astr['lang']` is a KeyError. */
  lemma MissingLangFails(row: Row, a: AS)
    requires row.attrs == ["lang"] && a.value.Text? && "lang" !in a.attrs
    ensures ValueElement(row, a) == Err(KeyError(Some("lang")))
  {
    BareTableKey("lang");
    assert ["lang"][..0] == [];
  }

  /** A written value read back: the same text; the `lang` attribute when
      the row lists it, and nothing else (the written element has no id,
      hence no refinements). */
  lemma ValueRoundTrip(md: Element, row: Row, a: AS)
    requires row.attrs == [] || row.attrs == ["lang"]
    requires a.value.Text?
    requires row.attrs == ["lang"] ==> "lang" in a.attrs && a.attrs["lang"].Some?
    ensures ValueElement(row, a).Ok?
    ensures Extract(md, ValueElement(row, a).value, row.attrs) ==
      Ok(AS(a.value, if row.attrs == [] then map[] else map["lang" := a.attrs["lang"]]))
  {
    BareTableKey("lang");
    BareTableKey("id");
    assert ["lang"][..0] == [];
    var e := ValueElement(row, a).value;
    assert e.attrs.Keys <= {"lang"};
    assert "id" !in e.attrs;
    assert Clark("dc", "id") !in e.attrs;
    assert GetXmlAttr(e, "id") == Ok(None);
  }

  /** The uid the writer adds to the identifiers is written without its
      `id` and `scheme`, so a read of the written package finds no uid. */
  lemma UidLost(md: Element, s: string)
    ensures ValueElement(META[0], WriteUid(Text(s))).Ok?
    ensures Extract(md, ValueElement(META[0], WriteUid(Text(s))).value, META[0].attrs) == Ok(AS(Text(s), map[]))
    ensures UidOnRead([AS(Text(s), map[])], Some("uid_id")) == None
  {
    ValueRoundTrip(md, META[0], WriteUid(Text(s)));
  }

  /** The first date the writer emits, in key order. */
  function FirstDate(d: Dates): (r: Option<(string, Date)>)
    ensures r.None? <==> d == NO_DATES
  {
    if d.creation.Some? then Some(("creation", d.creation.value))
    else if d.publication.Some? then Some(("publication", d.publication.value))
    else if d.modification.Some? then Some(("modification", d.modification.value))
    else None
  }

  predicate WellFormedDates(d: Dates)
  {
    (d.creation.Some? ==> |d.creation.value.text| == Width(d.creation.value.format)) &&
    (d.publication.Some? ==> |d.publication.value.text| == Width(d.publication.value.format)) &&
    (d.modification.Some? ==> |d.modification.value.text| == Width(d.modification.value.format))
  }

  /** No table row writes a date tag or an OPF element. */
  lemma MetaTagsAvoid(t: Tag)
    requires t == Q(Dc, "created") || t == Q(Dc, "date") || t == Q(Dc, "modified") || t.ns == Some(OPF_URI)
    ensures forall r :: r in META ==> Q(Dc, r.tag) != t
  {
    forall r | r in META ensures Q(Dc, r.tag) != t {
      var i :| 0 <= i < |META| && META[i] == r;
      DcIsNotOpf(r.tag, t.local);
    }
  }

  /** Selecting a child tag of a written metadata element that neither the
      format nor the table elements carry. */
  lemma MetadataOfTagged(ds: seq<Element>, es: seq<Element>, q: Tag)
    requires Tagged(es, q) == [] && q != FORMAT.tag
    ensures Select(MetadataOf(ds + es), [q]) == Tagged(ds, q)
  {
    var md := MetadataOf(ds + es);
    assert md.children == [FORMAT] + (ds + es);
    TaggedConcat([FORMAT], ds + es, q);
    TaggedConcat(ds, es, q);
    TaggedSingle(FORMAT, q);
    SelectOneStep(md, q);
  }

  /** Under the written metadata, only the date elements carry a date tag. */
  lemma MetadataDateTagged(meta: Meta, t: string)
    requires Shaped(meta, META) && MetadataElement(meta).Ok?
    requires t == "created" || t == "date" || t == "modified"
    ensures Select(MetadataElement(meta).value, [Q(Dc, t)]) == if t == "date" then DateElements(meta.dates) else []
  {
    MetaTagsAvoid(Q(Dc, t));
    RowsDateTagged(meta, META, t);
  }

  lemma RowsDateTagged(meta: Meta, rows: seq<Row>, t: string)
    requires Shaped(meta, rows) && RowsElements(meta, rows).Ok?
    requires forall r :: r in rows ==> Q(Dc, r.tag) != Q(Dc, t)
    requires t == "created" || t == "date" || t == "modified"
    ensures Select(MetadataOf(DateElements(meta.dates) + RowsElements(meta, rows).value), [Q(Dc, t)]) ==
      if t == "date" then DateElements(meta.dates) else []
  {
    var ds := DateElements(meta.dates);
    var q := Q(Dc, t);
    RowsElementsTags(meta, rows, q);
    MetadataOfTagged(ds, RowsElements(meta, rows).value, q);
    if t == "date" {
      TaggedAll(ds, q);
    } else {
      TaggedNone(ds, q);
    }
  }

  /** The date fold over a metadata element without dc:created and
      dc:modified: only dc:date can set a date. */
  lemma ReadDatesOnlyDate(md: Element, d0: Dates)
    requires Find(md, [Q(Dc, "created")]).None? && Find(md, [Q(Dc, "modified")]).None?
    ensures ReadDates(md, d0, DATES) == match Find(md, [Q(Dc, "date")])
      case None => Ok(d0)
      case Some(e) => if e.text.None? then Err(TypeError) else Ok(d0.(publication := ParseDate(e.text.value)))
  {
    assert DATES[..2][..1] == DATES[..1] && DATES[..3] == DATES;
    assert DATES[..1][..0] == [];
    assert ReadDates(md, d0, DATES[..1]) == Ok(d0);
  }

  /** The first written date element is the one for FirstDate. */
  lemma FirstDateElement(d: Dates)
    ensures FirstDate(d).Some? ==>
      DateElements(d) != [] && DateElements(d)[0] == DateElement(FirstDate(d).value.0, FirstDate(d).value.1)
  {
  }

  /** Reading the dates of a metadata element whose date children are the
      written ones. */
  lemma DatesReadBackOf(md: Element, d: Dates, d0: Dates)
    requires WellFormedDates(d)
    requires Select(md, [Q(Dc, "created")]) == [] && Select(md, [Q(Dc, "modified")]) == []
    requires Select(md, [Q(Dc, "date")]) == DateElements(d)
    ensures ReadDates(md, d0, DATES) == Ok(Dates(
      d0.creation,
      if FirstDate(d).Some? then Some(Date(Timestamp, Stamp(FirstDate(d).value.1))) else d0.publication,
      d0.modification))
  {
    ReadDatesOnlyDate(md, d0);
    FirstDateElement(d);
    if FirstDate(d).Some? {
      var (k, x) := FirstDate(d).value;
      assert |x.text| == Width(x.format);
      StampReparses(x);
    }
  }

  /** Every date is written as a dc:date, but only dc:date feeds the
      publication date on reading, and only the first one: after a write
      and a read, creation and modification keep what the reader started
      with, and publication is the first written date, as a timestamp. */
  lemma DatesReadBack(meta: Meta, md: Element, d0: Dates)
    requires Shaped(meta, META) && MetadataElement(meta) == Ok(md) && WellFormedDates(meta.dates)
    ensures ReadDates(md, d0, DATES) == Ok(Dates(
      d0.creation,
      if FirstDate(meta.dates).Some? then
        Some(Date(Timestamp, Stamp(FirstDate(meta.dates).value.1)))
      else d0.publication,
      d0.modification))
  {
    MetadataDateTagged(meta, "created");
    MetadataDateTagged(meta, "date");
    MetadataDateTagged(meta, "modified");
    DatesReadBackOf(md, meta.dates, d0);
  }

  // ----------------------------------------------------------- manifest

  /** The navigation item `_xml_manifest` appends: the builder raises
      KeyError(NoneType) on a None id or a None mimetype. */
  function NavItemElement(it: Item, guess: string -> Option<string>): (r: Result<Element>)
    ensures r.Ok? <==> it.iid.Some? && Mimetype(it, guess).Some?
    ensures r.Err? ==> r.error == NoneTypeKeyError
    ensures r.Ok? ==>
      r.value.tag == Q(Opf, "item") && r.value.Get("id") == it.iid &&
      r.value.Get("href") == Some(it.href) && r.value.Get("properties") == Some("nav")
  {
    if it.iid.None? || Mimetype(it, guess).None? then Err(NoneTypeKeyError)
    else Ok(Make(Q(Opf, "item"), map["id" := it.iid.value, "href" := it.href,
      "media-type" := Mimetype(it, guess).value, "properties" := "nav"], []))
  }

  /** `Epub30._xml_manifest`: the ordinary items, then the navigation item. */
  function ManifestElement3(es: Entries, tocItem: Option<Item>, guess: string -> Option<string>): (r: Result<Element>)
    ensures tocItem.None? ==> r == ManifestElement(Values(es), guess)
    ensures r.Ok? ==> ManifestElement(Values(es), guess).Ok? && r.value.tag == Q(Opf, "manifest")
    ensures r.Ok? && tocItem.Some? ==>
      NavItemElement(tocItem.value, guess).Ok? &&
      r.value.children == ManifestElement(Values(es), guess).value.children + [NavItemElement(tocItem.value, guess).value]
  {
    match ManifestElement(Values(es), guess)
    case Err(x) => Err(x)
    case Ok(man) =>
      match tocItem
      case None => Ok(man)
      case Some(it) =>
        match NavItemElement(it, guess)
        case Err(x) => Err(x)
        case Ok(c) => Ok(man.(children := man.children + [c]))
  }

  method XmlManifest3(m: Manifest, toc: Toc, guess: string -> Option<string>) returns (r: Result<Element>)
    ensures r == ManifestElement3(m.entries, toc.item, guess)
  {
    r := XmlManifest(m, guess);
    if r.Ok? && toc.item.Some? {
      var c := NavItemElement(toc.item.value, guess);
      if c.Err? {
        r := Err(c.error);
      } else {
        r := Ok(r.value.(children := r.value.children + [c.value]));
      }
    }
  }

  /** The navigation item the writer stores in the manifest is listed twice:
      once as an ordinary item and once with `properties="nav"`. */
  lemma NavItemListedTwice(es: Entries, it: Item, guess: string -> Option<string>)
    requires HasKey(es, it.iid) && Lookup(es, it.iid) == Ok(it)
    requires ManifestElement3(es, Some(it), guess).Ok?
    ensures var cs := ManifestElement3(es, Some(it), guess).value.children;
      exists i, j :: 0 <= i < j < |cs| && cs[i].Get("id") == it.iid && cs[j].Get("id") == it.iid
  {
    var cs := ManifestElement3(es, Some(it), guess).value.children;
    var p := Position(es, it.iid).value;
    assert Values(es)[p] == it;
    assert cs[p].Get("id") == it.iid;
    assert cs[|cs| - 1].Get("id") == it.iid;
  }

  /** The written metadata holds no `opf:item`. */
  lemma MetadataHasNoItem(meta: Meta, md: Element)
    requires Shaped(meta, META) && MetadataElement(meta) == Ok(md)
    ensures Select(md, [Q(Opf, "item")]) == []
  {
    var es := RowsElements(meta, META).value;
    assert md == MetadataOf(DateElements(meta.dates) + es);
    assert Select(MetadataOf(DateElements(meta.dates) + es), [Q(Opf, "item")]) == [] by {
      MetaTagsAvoid(Q(Opf, "item"));
      RowsHaveNoItem(meta, META);
    }
  }

  lemma RowsHaveNoItem(meta: Meta, rows: seq<Row>)
    requires Shaped(meta, rows) && RowsElements(meta, rows).Ok?
    requires forall r :: r in rows ==> Q(Dc, r.tag) != Q(Opf, "item")
    ensures Select(MetadataOf(DateElements(meta.dates) + RowsElements(meta, rows).value), [Q(Opf, "item")]) == []
  {
    var item := Q(Opf, "item");
    RowsElementsTags(meta, rows, item);
    DcIsNotOpf("date", "item");
    DateElementsTagged(meta.dates, item);
    MetadataOfTagged(DateElements(meta.dates), RowsElements(meta, rows).value, item);
  }

  /** A path through the package's metadata child. */
  lemma PackageSelect(version: string, uidId: string, md: Element, man: Element, sp: Element, t: Tag)
    requires md.tag == Q(Opf, "metadata") && man.tag == Q(Opf, "manifest") && sp.tag == Q(Opf, "spine")
    ensures Select(PackageElement(version, uidId, [md, man, sp]), [Q(Opf, "metadata"), t]) == Select(md, [t])
  {
    TaggedThree(md, man, sp, Q(Opf, "metadata"));
    SelectThrough(PackageElement(version, uidId, [md, man, sp]), Q(Opf, "metadata"), t, md);
    SelectOneStep(md, t);
  }

  /** The package the writer builds has no navigation item under its
      metadata, so reading it back finds no table of contents. */
  lemma WrittenPackageHasNoNav(version: string, uidId: string, meta: Meta, md: Element, man: Element, sp: Element)
    requires Shaped(meta, META) && MetadataElement(meta) == Ok(md)
    requires man.tag == Q(Opf, "manifest") && sp.tag == Q(Opf, "spine")
    ensures ReadToc(PackageElement(version, uidId, [md, man, sp])) == Ok(())
  {
    MetadataHasNoItem(meta, md);
    PackageSelect(version, uidId, md, man, sp, Q(Opf, "item"));
  }

  // ---------------------------------------------- the navigation document

  /** `E['html'].ol(E['html'].a(title, {'href': href}), E['html'].ol(children...))`. */
  function OlOf(n: TocNode): Element
    decreases n
  {
    Make(Q(Html, "ol"), map[], [
      Element(Q(Html, "a"), map["href" := n.href], Some(n.title), []),
      Make(Q(Html, "ol"), map[], OlsOf(n.children))])
  }

  /** `ol(toc)`: one list per entry, in order. */
  function OlsOf(ns: seq<TocNode>): (r: seq<Element>)
    ensures |r| == |ns| && forall i :: 0 <= i < |ns| ==> r[i] == OlOf(ns[i])
    decreases ns
  {
    if ns == [] then [] else [OlOf(ns[0])] + OlsOf(ns[1..])
  }

  /** The navigation document `_write_toc` builds. */
  function NavDoc(title: Option<string>, entries: seq<TocNode>): Element
  {
    Make(Q(Html, "html"), map["version" := "2005-1"], [
      Make(Q(Html, "head"), map[], []),
      Element(Q(Html, "h1"), map[], Some(Epub2.OrEmpty(title)), []),
      Make(Q(Html, "ol"), map[], OlsOf(entries))])
  }

  /** The navigation item a document without one gets. */
  const DEFAULT_NAV := Item(Some("__toc"), "toc.html")

  /** `Epub30._write_toc`. */
  method WriteToc(m: Manifest, z: Archive, opfpath: string, toc: Toc)
    requires m.Valid()
    modifies m, z`writes, toc`item
    ensures m.Valid()
    ensures toc.item == Some(if old(toc.item).Some? then old(toc.item).value else DEFAULT_NAV)
    ensures HasKey(old(m.entries), toc.item.value.iid) ==> m.entries == old(m.entries)
    ensures !HasKey(old(m.entries), toc.item.value.iid) ==>
      m.entries == Store(old(m.entries), toc.item.value.iid, toc.item.value)
    ensures z.writes == old(z.writes) +
      [(Join(DirName(opfpath), toc.item.value.href), Doc(NavDoc(toc.title, toc.entries)))]
  {
    if toc.item.None? {
      toc.item := Some(DEFAULT_NAV);
    }
    var _ := WriteStr(m, z, opfpath, Existing(toc.item.value), Doc(NavDoc(toc.title, toc.entries)));
  }

  /** A written entry list: the link carries the href and the title, and
      the nested list holds the children's lists, in order. */
  lemma OlShape(n: TocNode)
    ensures Find(OlOf(n), [Q(Html, "a")]) == Some(Element(Q(Html, "a"), map["href" := n.href], Some(n.title), []))
    ensures Select(OlOf(n), [Q(Html, "ol"), Q(Html, "ol")]) == OlsOf(n.children)
  {
    var e := OlOf(n);
    var a := e.children[0];
    var ol := e.children[1];
    TaggedPair(a, ol, Q(Html, "a"));
    TaggedPair(a, ol, Q(Html, "ol"));
    SelectOneStep(e, Q(Html, "a"));
    SelectThrough(e, Q(Html, "ol"), Q(Html, "ol"), ol);
    TaggedAll(ol.children, Q(Html, "ol"));
  }

  /** The written document's heading is the title (`''` for none), and its
      top-level list holds one list per entry. */
  lemma NavDocShape(title: Option<string>, entries: seq<TocNode>)
    ensures Find(NavDoc(title, entries), [Q(Html, "h1")]).Some?
    ensures Find(NavDoc(title, entries), [Q(Html, "h1")]).value.text == Some(Epub2.OrEmpty(title))
    ensures Select(NavDoc(title, entries), [Q(Html, "ol"), Q(Html, "ol")]) == OlsOf(entries)
  {
    var d := NavDoc(title, entries);
    var head := d.children[0];
    var h1 := d.children[1];
    var ol := d.children[2];
    TaggedThree(head, h1, ol, Q(Html, "h1"));
    TaggedThree(head, h1, ol, Q(Html, "ol"));
    SelectOneStep(d, Q(Html, "h1"));
    SelectThrough(d, Q(Html, "ol"), Q(Html, "ol"), ol);
    TaggedAll(ol.children, Q(Html, "ol"));
  }
}
