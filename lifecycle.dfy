/** The document object of dawn/epub.py (the `Epub` base class with its
    two registered subclasses) and the `open` context manager of
    dawn/open.py that creates it, fills it and writes it back. */
module Lifecycle {
  import opened Wrappers
  import opened Xml
  import opened Utils
  import opened Zip
  import opened Epub
  import Epub2
  import Epub3

  // ------------------------------------------------------ metadata shapes

  /** The key every table row stores under, with whether it holds a list.
      The two dialects' tables store the same keys with the same shapes. */
  const SHAPES: map<string, bool> := map[
    "titles" := true, "creators" := true, "subjects" := true, "description" := false,
    "publisher" := false, "contributors" := true, "identifiers" := true, "source" := false,
    "languages" := true]

  /** Every table key present holds a list exactly when its row is
      multi-valued. */
  predicate WellShaped(meta: Meta)
  {
    FieldsShaped(meta.fields)
  }

  predicate FieldsShaped(fields: map<string, Field>)
  {
    forall k :: k in SHAPES && k in fields ==> fields[k].Many? == SHAPES[k]
  }

  /** Each row of either table is listed in SHAPES with its own shape. */
  lemma TableShapes(rows: seq<Row>)
    requires rows == Epub2.META || rows == Epub3.META
    ensures RowsShaped(rows)
  {
    if rows == Epub2.META {
      Table2Shapes();
    } else {
      Table3Shapes();
    }
  }

  lemma Table2Shapes()
    ensures forall i :: 0 <= i < |Epub2.META| ==>
      FieldKey(Epub2.META[i]) in SHAPES && SHAPES[FieldKey(Epub2.META[i])] == Epub2.META[i].multi
  {
    var t := Epub2.META;
    assert FieldKey(t[0]) == "titles";
    assert FieldKey(t[1]) == "creators";
    assert FieldKey(t[2]) == "subjects";
    assert FieldKey(t[3]) == "description";
    assert FieldKey(t[4]) == "publisher";
    assert FieldKey(t[5]) == "contributors";
    assert FieldKey(t[6]) == "identifiers";
    assert FieldKey(t[7]) == "source";
    assert FieldKey(t[8]) == "languages";
  }

  lemma Table3Shapes()
    ensures forall i :: 0 <= i < |Epub3.META| ==>
      FieldKey(Epub3.META[i]) in SHAPES && SHAPES[FieldKey(Epub3.META[i])] == Epub3.META[i].multi
  {
    var t := Epub3.META;
    assert FieldKey(t[0]) == "identifiers";
    assert FieldKey(t[1]) == "titles";
    assert FieldKey(t[2]) == "languages";
    assert FieldKey(t[3]) == "contributors";
    assert FieldKey(t[4]) == "creators";
    assert FieldKey(t[5]) == "description";
    assert FieldKey(t[6]) == "publisher";
    assert FieldKey(t[7]) == "source";
    assert FieldKey(t[8]) == "subjects";
  }

  predicate RowsShaped(rows: seq<Row>)
  {
    forall r :: r in rows ==> FieldKey(r) in SHAPES && SHAPES[FieldKey(r)] == r.multi
  }

  /** A well-shaped metadata map has the shape either writer requires. */
  lemma WellShapedIsShaped(meta: Meta, rows: seq<Row>)
    requires WellShaped(meta)
    requires rows == Epub2.META || rows == Epub3.META
    ensures Shaped(meta, rows)
  {
    TableShapes(rows);
  }

  /** The metadata a fresh document starts with is well shaped. */
  lemma InitialMetaWellShaped()
    ensures WellShaped(InitialMeta())
  {
    var m := InitialMeta();
    assert m.fields.Keys == SHAPES.Keys;
    forall k | k in SHAPES ensures m.fields[k].Many? == SHAPES[k] {
    }
  }

  /** Reading a table keeps every key it stores well shaped, and stores a
      value under every row's key. */
  lemma {:induction false} ReadRowsShaped(md: Option<Element>, rows: seq<Row>, ex: Row -> Element -> Result<AS>,
                                          fields: map<string, Field>)
    requires FieldsShaped(fields)
    requires forall r :: r in rows ==> FieldKey(r) in SHAPES && SHAPES[FieldKey(r)] == r.multi
    requires ReadRows(md, rows, ex, fields).Ok?
    ensures FieldsShaped(ReadRows(md, rows, ex, fields).value)
    ensures forall r :: r in rows ==> FieldKey(r) in ReadRows(md, rows, ex, fields).value
    ensures fields.Keys <= ReadRows(md, rows, ex, fields).value.Keys
    decreases |rows|
  {
    if rows != [] {
      var f := ReadRow(md, rows[0], ex(rows[0])).value;
      assert forall r :: r in rows[1..] ==> r in rows;
      ReadRowsShaped(md, rows[1..], ex, fields[FieldKey(rows[0]) := f]);
    }
  }

  /** `_read_meta` of the document's dialect. */
  function ReadMetaFor(d: Dialect, opf: Element, meta: Meta): Result<Meta>
  {
    match d
    case Epub20 => Epub2.ReadMetaSpec(opf, meta)
    case Epub30 => Epub3.ReadMetaSpec(opf, meta)
  }

  /** `self.meta['identifiers']` as `filter` iterates it: a list by its
      items, None not at all, and an attributed string by its keys, on
      which `.get` is an AttributeError. */
  function Identifiers(meta: Meta): (r: Result<seq<AS>>)
    ensures "identifiers" in meta.fields && meta.fields["identifiers"].Many? ==>
      r == Ok(meta.fields["identifiers"].items)
    ensures "identifiers" !in meta.fields ==> r == Err(KeyError(Some("identifiers")))
  {
    if "identifiers" !in meta.fields then Err(KeyError(Some("identifiers")))
    else
      match meta.fields["identifiers"]
      case Many(xs) => Ok(xs)
      case One(None) => Err(TypeError)
      case One(Some(a)) => if a.attrs == map[] then Ok([]) else Err(AttributeError)
  }

  /** Reading the metadata keeps it well shaped and leaves a list of
      identifiers for the uid to be chosen from. */
  lemma ReadMetaShaped(d: Dialect, opf: Element, meta: Meta, read: Meta)
    requires WellShaped(meta) && ReadMetaFor(d, opf, meta) == Ok(read)
    ensures WellShaped(read)
    ensures "identifiers" in read.fields && read.fields["identifiers"].Many?
    ensures Identifiers(read).Ok?
  {
    match d {
      case Epub20 => ReadMeta2Shaped(opf, meta, read);
      case Epub30 => ReadMeta3Shaped(opf, meta, read);
    }
  }

  lemma ReadMeta2Shaped(opf: Element, meta: Meta, read: Meta)
    requires WellShaped(meta) && Epub2.ReadMetaSpec(opf, meta) == Ok(read)
    ensures WellShaped(read)
    ensures "identifiers" in read.fields && read.fields["identifiers"].Many?
  {
    var md := Epub2.Metadata(opf).value;
    assert ReadRows(Some(md), Epub2.META, Epub2.Extractor, meta.fields) == Ok(read.fields);
    Table2Identifiers();
    TableRowsShaped(Some(md), Epub2.META, 6, Epub2.Extractor, meta.fields, read.fields);
  }

  lemma ReadMeta3Shaped(opf: Element, meta: Meta, read: Meta)
    requires WellShaped(meta) && Epub3.ReadMetaSpec(opf, meta) == Ok(read)
    ensures WellShaped(read)
    ensures "identifiers" in read.fields && read.fields["identifiers"].Many?
  {
    var md := Epub2.Metadata(opf).value;
    var fields := ReadRows(Some(md), Epub3.META, Epub3.Extractor(md), meta.fields).value;
    assert read.fields == Epub3.RenamedIdentifiers(fields);
    Table3Identifiers();
    TableRowsShaped(Some(md), Epub3.META, 0, Epub3.Extractor(md), meta.fields, fields);
    RenamedShaped(fields);
  }

  /** Where each table keeps its identifiers. */
  lemma Table2Identifiers()
    ensures RowsShaped(Epub2.META) && FieldKey(Epub2.META[6]) == "identifiers" && Epub2.META[6].multi
  {
    TableShapes(Epub2.META);
  }

  lemma Table3Identifiers()
    ensures RowsShaped(Epub3.META) && FieldKey(Epub3.META[0]) == "identifiers" && Epub3.META[0].multi
  {
    TableShapes(Epub3.META);
  }

  /** The scheme renaming keeps a list of identifiers a list. */
  lemma RenamedShaped(fields: map<string, Field>)
    requires FieldsShaped(fields) && "identifiers" in fields && fields["identifiers"].Many?
    ensures FieldsShaped(Epub3.RenamedIdentifiers(fields))
    ensures "identifiers" in Epub3.RenamedIdentifiers(fields) && Epub3.RenamedIdentifiers(fields)["identifiers"].Many?
  {
  }

  /** A table whose rows have their SHAPES, read into well-shaped fields,
      leaves well-shaped fields holding a list under its row `i`'s key. */
  lemma TableRowsShaped(md: Option<Element>, rows: seq<Row>, i: nat, ex: Row -> Element -> Result<AS>,
                        fields: map<string, Field>, read: map<string, Field>)
    requires RowsShaped(rows)
    requires i < |rows| && rows[i].multi
    requires FieldsShaped(fields) && ReadRows(md, rows, ex, fields) == Ok(read)
    ensures FieldsShaped(read)
    ensures FieldKey(rows[i]) in read && read[FieldKey(rows[i])].Many?
  {
    ReadRowsShaped(md, rows, ex, fields);
    assert rows[i] in rows;
  }

  // ------------------------------------------------------ the package

  /** `_xml_meta` of the dialect. */
  function MetadataFor(d: Dialect, meta: Meta): Result<Element>
    requires WellShaped(meta)
  {
    WellShapedIsShaped(meta, Epub2.META);
    WellShapedIsShaped(meta, Epub3.META);
    match d
    case Epub20 => Epub2.MetadataElement(meta)
    case Epub30 => Epub3.MetadataElement(meta)
  }

  /** `_xml_manifest` of the dialect, given the manifest entries and the
      TOC's backing item. */
  function ManifestFor(d: Dialect, es: Entries, tocItem: Option<Item>, guess: string -> Option<string>): Result<Element>
  {
    match d
    case Epub20 => ManifestElement(Values(Epub2.WithTocItem(es, tocItem)), guess)
    case Epub30 => Epub3.ManifestElement3(es, tocItem, guess)
  }

  /** The manifest `_xml_manifest` leaves: EPUB 2 adds the NCX item, and
      deletes it again only when the serialisation succeeds; EPUB 3 does not
      touch the manifest. */
  function ManifestLeft(d: Dialect, es: Entries, tocItem: Option<Item>, guess: string -> Option<string>): Entries
  {
    if d == Epub30 || tocItem.None? then es
    else if ManifestFor(d, es, tocItem, guess).Ok? then Remove(Epub2.WithTocItem(es, tocItem), tocItem.value.iid)
    else Epub2.WithTocItem(es, tocItem)
  }

  /** `_xml_spine` of the dialect. */
  function SpineFor(d: Dialect, items: seq<Item>, tocItem: Option<Item>): Result<Element>
  {
    match d
    case Epub20 => Epub2.SpineElement2(items, tocItem)
    case Epub30 => SpineElement(items)
  }

  /** The package `_write_opf` serialises:
      `E['opf'].package({'version': ..., 'unique-identifier': self.uid['id']},
      self._xml_meta(), self._xml_manifest(), self._xml_spine())`. The
      attribute dict is built first, so a uid of None or without `id` fails
      before the three parts; a None `id` makes the builder raise
      KeyError(NoneType) only once they are built. */
  function PackageFor(d: Dialect, uid: Option<AS>, meta: Meta, es: Entries, items: seq<Item>,
                      tocItem: Option<Item>, guess: string -> Option<string>): (r: Result<Element>)
    requires WellShaped(meta)
    ensures r.Ok? <==>
      uid.Some? && uid.value.Get("id").Some? && MetadataFor(d, meta).Ok? &&
      ManifestFor(d, es, tocItem, guess).Ok? && SpineFor(d, items, tocItem).Ok?
    ensures r.Ok? ==> r.value == PackageElement(VersionOf(d), uid.value.Get("id").value,
      [MetadataFor(d, meta).value, ManifestFor(d, es, tocItem, guess).value, SpineFor(d, items, tocItem).value])
    ensures uid.None? ==> r == Err(TypeError)
    ensures uid.Some? && "id" !in uid.value.attrs ==> r == Err(KeyError(Some("id")))
    ensures (uid.Some? && uid.value.Index("id") == Ok(None) && MetadataFor(d, meta).Ok? &&
             ManifestFor(d, es, tocItem, guess).Ok? && SpineFor(d, items, tocItem).Ok?) ==>
      r == Err(NoneTypeKeyError)
  {
    match uid
    case None => Err(TypeError)
    case Some(u) =>
      match u.Index("id")
      case Err(x) => Err(x)
      case Ok(id) =>
        match MetadataFor(d, meta)
        case Err(x) => Err(x)
        case Ok(md) =>
          match ManifestFor(d, es, tocItem, guess)
          case Err(x) => Err(x)
          case Ok(man) =>
            match SpineFor(d, items, tocItem)
            case Err(x) => Err(x)
            case Ok(sp) =>
              if id.None? then Err(NoneTypeKeyError) else Ok(PackageElement(VersionOf(d), id.value, [md, man, sp]))
  }

  /** The manifest the package build leaves: `_xml_manifest` runs only
      once the uid's `id` is looked up and the metadata is built. */
  function PackageManifest(d: Dialect, uid: Option<AS>, meta: Meta, es: Entries,
                           tocItem: Option<Item>, guess: string -> Option<string>): Entries
    requires WellShaped(meta)
  {
    if uid.Some? && uid.value.Index("id").Ok? && MetadataFor(d, meta).Ok? then ManifestLeft(d, es, tocItem, guess)
    else es
  }

  /** After an EPUB 2 write that succeeds, the manifest is the one before
      the write less the entry keyed by the NCX item's id, whether or not
      `_write_toc` registered that item first. */
  lemma WrittenManifest2(es: Entries, it: Item, guess: string -> Option<string>)
    requires DistinctKeys(es)
    requires ManifestFor(Epub20, Registered(es, it), Some(it), guess).Ok?
    ensures ManifestLeft(Epub20, Registered(es, it), Some(it), guess) == Remove(es, it.iid)
  {
    if HasKey(es, it.iid) {
      Epub2.ManifestRestored(es, it);
    } else {
      Epub2.ManifestRestored(Store(es, it.iid, it), it);
      Epub2.ManifestRestored(es, it);
    }
  }

  /** A written package names its own dialect and its uid: reading it
      back dispatches to the same class and looks for the same id. */
  lemma PackageNamesDialect(d: Dialect, uid: Option<AS>, meta: Meta, es: Entries, items: seq<Item>,
                            tocItem: Option<Item>, guess: string -> Option<string>,
                            pkg: Element)
    requires WellShaped(meta) && PackageFor(d, uid, meta, es, items, tocItem, guess) == Ok(pkg)
    ensures LookupVersion(pkg.Get("version")) == Ok(d)
    ensures uid.Some? && pkg.Get("unique-identifier") == uid.value.Get("id")
  {
    VersionsRegistry(d);
  }

  /** The navigation document of the dialect and its default backing item. */
  function TocDocFor(d: Dialect, title: Option<string>, entries: seq<TocNode>): Element
  {
    match d
    case Epub20 => Epub2.NcxDoc(title, entries)
    case Epub30 => Epub3.NavDoc(title, entries)
  }

  function DefaultTocItem(d: Dialect): Item
  {
    match d
    case Epub20 => Epub2.DEFAULT_NCX
    case Epub30 => Epub3.DEFAULT_NAV
  }

  /** What `writestr(item)` leaves in the manifest for an item. */
  function Registered(es: Entries, it: Item): Entries
  {
    if HasKey(es, it.iid) then es else Store(es, it.iid, it)
  }

  /** What a write that builds `pkg` returns: nothing, or its error. */
  function Done(pkg: Result<Element>): Result<()>
  {
    if pkg.Ok? then Ok(()) else Err(pkg.error)
  }

  /** What a write that builds `pkg` adds to the archive. */
  function Emitted(path: string, pkg: Result<Element>): seq<(string, Payload)>
  {
    if pkg.Ok? then [(path, Doc(pkg.value))] else []
  }

  /** The manifest entries the package is built from: those of the
      document, plus the TOC's backing item when `_write_toc` ran. */
  function PackageEntries(es: Entries, entries: seq<TocNode>, tocItem: Option<Item>): Entries
  {
    if entries != [] && tocItem.Some? then Registered(es, tocItem.value) else es
  }

  // ------------------------------------------------- a fresh written book

  /** The metadata of a document opened for writing with uid value `u`, as
      `_write_opf` serialises it when nothing else was set: the initial
      metadata, the uid as the only identifier, and the modification date. */
  function FreshMeta(u: Value, now: Date): (m: Meta)
    ensures WellShaped(m)
    ensures m.fields == InitialMeta().fields["identifiers" := Many([WriteUid(u)])]
  {
    InitialMetaWellShaped();
    var m0 := InitialMeta();
    Meta(m0.fields["identifiers" := Many([WriteUid(u)])], m0.dates.(modification := Some(now)))
  }

  /** The identifier row is the only row of either table keyed
      "identifiers", and EPUB 3 lists no attribute for it. */
  lemma IdentifierRows()
    ensures forall r :: r in Epub2.META && FieldKey(r) == "identifiers" ==> r == Epub2.META[6]
    ensures forall r :: r in Epub3.META && FieldKey(r) == "identifiers" ==> r.attrs == []
  {
    Table2Shapes();
    Table3Shapes();
    forall r | r in Epub2.META && FieldKey(r) == "identifiers" ensures r == Epub2.META[6] {
      var i :| 0 <= i < |Epub2.META| && Epub2.META[i] == r;
    }
    forall r | r in Epub3.META && FieldKey(r) == "identifiers" ensures r.attrs == [] {
      var i :| 0 <= i < |Epub3.META| && Epub3.META[i] == r;
    }
  }

  /** EPUB 3 rows that each write without failing write together. */
  lemma {:induction false} Rows3AllOk(meta: Meta, rows: seq<Row>)
    requires Shaped(meta, rows)
    requires forall r :: r in rows ==> Epub3.RowOutput(meta, r).Ok?
    ensures Epub3.RowsElements(meta, rows).Ok?
    decreases |rows|
  {
    if rows != [] {
      ShapedSuffix(meta, rows, 1);
      assert forall r :: r in rows[1..] ==> r in rows;
      Rows3AllOk(meta, rows[1..]);
    }
  }

  /** The fresh metadata is written by either dialect. */
  lemma FreshMetaWritten(d: Dialect, u: string, now: Date)
    ensures MetadataFor(d, FreshMeta(Text(u), now)).Ok?
  {
    var meta := FreshMeta(Text(u), now);
    var uid := WriteUid(Text(u));
    WellShapedIsShaped(meta, Epub2.META);
    WellShapedIsShaped(meta, Epub3.META);
    IdentifierRows();
    assert forall k :: k in meta.fields && k != "identifiers" ==> !meta.fields[k].Truthy();
    if d == Epub20 {
      assert Epub2.Writable(meta);
      Epub2.MetaRoundTrip(meta, map[]);
    } else {
      forall r | r in Epub3.META ensures Epub3.RowOutput(meta, r).Ok? {
        assert Shaped(meta, [r]);
        if FieldKey(r) == "identifiers" {
          assert r.attrs == [];
          assert Epub3.IndexedAttrs(uid, r.attrs) == Ok(map[]);
          assert Epub3.ValueElement(r, uid).Ok?;
          assert MapResult([uid], (a: AS) => Epub3.ValueElement(r, a)).Ok?;
        }
      }
      Rows3AllOk(meta, Epub3.META);
    }
  }

  /** A document opened for writing with a str uid and written before
      anything else is added builds its package, in either dialect. */
  lemma FreshPackageBuilt(d: Dialect, u: string, now: Date, guess: string -> Option<string>)
    ensures PackageFor(d, Some(WriteUid(Text(u))), FreshMeta(Text(u), now), [], [], None, guess).Ok?
  {
    var uid := WriteUid(Text(u));
    assert uid.Index("id") == Ok(Some("uid_id")) && uid.Get("id") == Some("uid_id");
    FreshMetaWritten(d, u, now);
    EmptyPartsBuilt(d, guess);
  }

  /** An empty manifest and spine, without a TOC item, serialise. */
  lemma EmptyPartsBuilt(d: Dialect, guess: string -> Option<string>)
    ensures ManifestFor(d, [], None, guess).Ok? && SpineFor(d, [], None).Ok?
  {
    assert Values([]) == [];
    assert Epub2.WithTocItem([], None) == [];
    assert ManifestElement([], guess).Ok?;
    assert SpineElement([]).Ok?;
  }

  /** The identifiers hold just `a`, and no other field is truthy. */
  predicate OnlyUid(meta: Meta, a: AS)
  {
    "identifiers" in meta.fields && meta.fields["identifiers"] == Many([a]) &&
    forall k :: k in meta.fields && k != "identifiers" ==> !meta.fields[k].Truthy()
  }

  /** EPUB 2 rows that reach the identifier row stop there when the uid's
      value is not a str: `str(astr)` returns a non-str. */
  lemma {:induction false} Rows2UidFails(meta: Meta, rows: seq<Row>, a: AS)
    requires Shaped(meta, rows) && OnlyUid(meta, a) && !a.value.Text?
    requires exists r :: r in rows && FieldKey(r) == "identifiers"
    ensures Epub2.RowsElements(meta, rows) == Err(TypeError)
    decreases |rows|
  {
    var r0 := rows[0];
    assert r0 in rows;
    assert Shaped(meta, [r0]);
    ShapedSuffix(meta, rows, 1);
    if FieldKey(r0) == "identifiers" {
      assert Epub2.RowOutput(meta, r0) == Err(TypeError);
    } else {
      assert Epub2.RowOutput(meta, r0) == Ok([]);
      var r :| r in rows && FieldKey(r) == "identifiers";
      assert r in rows[1..];
      Rows2UidFails(meta, rows[1..], a);
    }
  }

  /** The same for the EPUB 3 rows. */
  lemma {:induction false} Rows3UidFails(meta: Meta, rows: seq<Row>, a: AS)
    requires Shaped(meta, rows) && OnlyUid(meta, a) && !a.value.Text?
    requires exists r :: r in rows && FieldKey(r) == "identifiers"
    ensures Epub3.RowsElements(meta, rows) == Err(TypeError)
    decreases |rows|
  {
    var r0 := rows[0];
    assert r0 in rows;
    assert Shaped(meta, [r0]);
    ShapedSuffix(meta, rows, 1);
    if FieldKey(r0) == "identifiers" {
      assert Epub3.ValueElement(r0, a) == Err(TypeError);
      assert Epub3.RowOutput(meta, r0) == Err(TypeError);
    } else {
      assert Epub3.RowOutput(meta, r0) == Ok([]);
      var r :| r in rows && FieldKey(r) == "identifiers";
      assert r in rows[1..];
      Rows3UidFails(meta, rows[1..], a);
    }
  }

  /** `_init_write` stores what `uuid.uuid4()` returns, a UUID object, and
      `AttributedString.__str__` returns it as it is; `_write_opf` then
      fails in `str(astr)` on the identifier, in either dialect. */
  lemma UuidMetaFails(d: Dialect, h: string, now: Date)
    ensures MetadataFor(d, FreshMeta(UuidObject(h), now)) == Err(TypeError)
  {
    var meta := FreshMeta(UuidObject(h), now);
    var a := WriteUid(UuidObject(h));
    WellShapedIsShaped(meta, Epub2.META);
    WellShapedIsShaped(meta, Epub3.META);
    InitialMetaWellShaped();
    assert OnlyUid(meta, a);
    if d == Epub20 {
      assert Epub2.META[6] in Epub2.META && FieldKey(Epub2.META[6]) == "identifiers";
      Rows2UidFails(meta, Epub2.META, a);
    } else {
      assert Epub3.META[0] in Epub3.META && FieldKey(Epub3.META[0]) == "identifiers";
      Rows3UidFails(meta, Epub3.META, a);
    }
  }

  /** Hence a document opened for writing with the uid `uuid.uuid4()`
      returns builds no package: its `__exit__` raises. */
  lemma UuidPackageFails(d: Dialect, h: string, now: Date, guess: string -> Option<string>)
    ensures PackageFor(d, Some(WriteUid(UuidObject(h))), FreshMeta(UuidObject(h), now), [], [], None, guess) == Err(TypeError)
  {
    UuidMetaFails(d, h, now);
  }

  // ------------------------------------------------------ the document

  /** The TOC `_read_toc` leaves after a read that succeeds, the manifest
      having held `es` and the TOC `item0`, `title0`, `entries0`: EPUB 3
      leaves it as it was; EPUB 2 leaves it as it was when the spine names
      no NCX, and otherwise takes the popped NCX item, appends the NCX's
      top-level navPoints and takes its `docTitle` text when there is one. */
  ghost predicate TocFrom(d: Dialect, opf: Element, es: Entries, z: Archive, opfpath: string,
                          item0: Option<Item>, title0: Option<string>, entries0: seq<TocNode>, toc: Toc)
    reads z, toc
  {
    match d
    case Epub30 => toc.item == item0 && toc.title == title0 && toc.entries == entries0
    case Epub20 =>
      Epub2.TocId(opf).Ok? &&
      if Epub2.TocId(opf).value.None? then toc.item == item0 && toc.title == title0 && toc.entries == entries0
      else
        var k := Epub2.TocId(opf).value;
        Lookup(es, k).Ok? && toc.item == Some(Lookup(es, k).value) &&
        var ncx := OpenItem(z, opfpath, Lookup(es, k).value.href);
        ncx.Ok? && Epub2.NcxEntries(ncx.value).Ok? &&
        toc.entries == entries0 + Epub2.NcxEntries(ncx.value).value &&
        toc.title == (if Epub2.NcxTitle(ncx.value).Some? then Epub2.NcxTitle(ncx.value).value else title0)
  }

  /** What `_read_toc` of the dialect returns on a manifest holding `es`:
      EPUB 3 refuses a navigation item. */
  function TocOutcome(d: Dialect, opf: Element, es: Entries, z: Archive, opfpath: string): Result<()>
    reads z
  {
    match d
    case Epub30 => Epub3.ReadToc(opf)
    case Epub20 => Epub2.TocOutcome(opf, es, z, opfpath)
  }

  /** What the first half of `_init_read` returns, the manifest having held
      `es0`: the manifest read, then the spine read on the manifest it
      left, then `_read_toc`; the first error stops the read. */
  function StructureOutcome(d: Dialect, opf: Element, es0: Entries, z: Archive, opfpath: string): Result<()>
    reads z
  {
    var es := ReadItems(es0, ManifestItems(opf));
    if es.Err? then Err(es.error)
    else
      var sp := MapResult(SpineItemrefs(opf), e => SpineEntry(es.value, e));
      if sp.Err? then Err(sp.error)
      else TocOutcome(d, opf, es.value, z, opfpath)
  }

  /** What `_init_read` returns: the structure, then `_read_meta` on the
      metadata `meta0`. */
  function InitReadOutcome(d: Dialect, opf: Element, es0: Entries, meta0: Meta, z: Archive, opfpath: string): Result<()>
    reads z
  {
    var st := StructureOutcome(d, opf, es0, z, opfpath);
    if st.Err? then st
    else if ReadMetaFor(d, opf, meta0).Err? then Err(ReadMetaFor(d, opf, meta0).error)
    else Ok(())
  }

  /** An `Epub20` or `Epub30` object: the archive it reads from and writes
      to, the OPF path, and the document model it fills. */
  class Document {
    const dialect: Dialect
    const opfpath: string
    const zf: Archive
    /** `mimetypes.guess_type`, which the manifest serialisation consults. */
    const guess: string -> Option<string>
    const manifest: Manifest
    const spine: Spine
    const toc: Toc
    var meta: Meta
    /** `self.uid`; None until `_init_read` or `_init_write` sets it. */
    var uid: Option<AS>

    ghost predicate Valid()
      reads this, manifest
    {
      manifest.Valid() && WellShaped(meta)
    }

    /** `Epub.__init__`: an empty manifest, spine and TOC, the initial
        metadata. */
    constructor (dialect: Dialect, zf: Archive, opfpath: string, guess: string -> Option<string>)
      ensures Valid()
      ensures this.dialect == dialect && this.zf == zf && this.opfpath == opfpath && this.guess == guess
      ensures fresh(manifest) && fresh(spine) && fresh(toc)
      ensures manifest.entries == [] && spine.items == []
      ensures toc.item == None && toc.title == None && toc.entries == []
      ensures meta == InitialMeta() && uid == None
    {
      this.dialect := dialect;
      this.zf := zf;
      this.opfpath := opfpath;
      this.guess := guess;
      manifest := new Manifest();
      spine := new Spine();
      toc := new Toc(None, None);
      meta := InitialMeta();
      uid := None;
      new;
      InitialMetaWellShaped();
    }

    /** `_read_toc` of the dialect. EPUB 2 pops the NCX item named by the
        spine's `toc` attribute and loads it; EPUB 3 refuses a package with
        a navigation item. */
    method ReadTocStep(opf: Element) returns (r: Result<()>)
      requires manifest.Valid()
      modifies manifest, toc
      ensures manifest.Valid()
      ensures dialect == Epub30 ==> (r == Epub3.ReadToc(opf) && manifest.entries == old(manifest.entries) &&
        toc.item == old(toc.item) && toc.title == old(toc.title) && toc.entries == old(toc.entries))
      ensures dialect == Epub20 && r.Ok? ==> (Epub2.TocId(opf).Ok? &&
        manifest.entries == (if Epub2.TocId(opf).value.None? then old(manifest.entries)
                             else Remove(old(manifest.entries), Epub2.TocId(opf).value)))
      ensures r == TocOutcome(dialect, opf, old(manifest.entries), zf, opfpath)
      ensures r.Ok? ==> TocFrom(dialect, opf, old(manifest.entries), zf, opfpath, old(toc.item), old(toc.title), old(toc.entries), toc)
    {
      if dialect == Epub20 {
        r := Epub2.ReadToc(opf, manifest, toc, zf, opfpath);
      } else {
        r := Epub3.ReadToc(opf);
      }
    }

    /** `_read_meta` of the dialect, on the current metadata. */
    method ReadMetaStep(opf: Element) returns (read: Result<Meta>)
      ensures read == ReadMetaFor(dialect, opf, meta)
    {
      if dialect == Epub20 {
        read := Epub2.ReadMeta(opf, meta);
      } else {
        read := Epub3.ReadMeta(opf, meta);
      }
    }

    /** The first half of `_init_read`: the manifest, the spine and the
        TOC. */
    method ReadStructure(opf: Element) returns (r: Result<()>)
      requires manifest.Valid()
      modifies manifest, spine, toc
      ensures manifest.Valid()
      ensures r.Ok? ==> ReadItems(old(manifest.entries), ManifestItems(opf)).Ok?
      ensures r.Ok? ==>
        var es := ReadItems(old(manifest.entries), ManifestItems(opf)).value;
        MapResult(SpineItemrefs(opf), e => SpineEntry(es, e)).Ok? &&
        spine.items == old(spine.items) + MapResult(SpineItemrefs(opf), e => SpineEntry(es, e)).value &&
        (dialect == Epub30 ==> (Epub3.NavItems(opf) == [] && manifest.entries == es)) &&
        (dialect == Epub20 ==> (Epub2.TocId(opf).Ok? &&
          manifest.entries == (if Epub2.TocId(opf).value.None? then es else Remove(es, Epub2.TocId(opf).value)))) &&
        TocFrom(dialect, opf, es, zf, opfpath, old(toc.item), old(toc.title), old(toc.entries), toc)
      ensures r == StructureOutcome(dialect, opf, old(manifest.entries), zf, opfpath)
      ensures dialect == Epub30 ==> toc.item == old(toc.item) && toc.title == old(toc.title) && toc.entries == old(toc.entries)
    {
      r := ReadManifest(manifest, opf);
      if r.Ok? {
        r := ReadSpine(spine, manifest.entries, opf);
        if r.Ok? {
          r := ReadTocStep(opf);
        }
      }
    }

    /** The second half of `_init_read`: the metadata, then the uid, the
        first identifier whose `id` is the package's `unique-identifier`. */
    method ReadMetadata(opf: Element) returns (r: Result<()>)
      requires WellShaped(meta)
      modifies this`meta, this`uid
      ensures WellShaped(meta)
      ensures r == if ReadMetaFor(dialect, opf, old(meta)).Err? then Err(ReadMetaFor(dialect, opf, old(meta)).error) else Ok(())
      ensures r.Ok? ==> ReadMetaFor(dialect, opf, old(meta)) == Ok(meta)
      ensures r.Ok? ==> Identifiers(meta).Ok? && uid == UidOnRead(Identifiers(meta).value, opf.Get("unique-identifier"))
    {
      var read := ReadMetaStep(opf);
      if read.Err? {
        return Err(read.error);
      }
      ReadMetaShaped(dialect, opf, meta, read.value);
      meta := read.value;
      uid := UidOnRead(Identifiers(meta).value, opf.Get("unique-identifier"));
      r := Ok(());
    }

    /** `_init_read`: the manifest, the spine, the TOC and the metadata,
        then the uid. */
    method InitRead(opf: Element) returns (r: Result<()>)
      requires Valid()
      modifies manifest, spine, toc, this`meta, this`uid
      ensures Valid()
      ensures r.Ok? ==> ReadItems(old(manifest.entries), ManifestItems(opf)).Ok?
      ensures r.Ok? ==>
        var es := ReadItems(old(manifest.entries), ManifestItems(opf)).value;
        MapResult(SpineItemrefs(opf), e => SpineEntry(es, e)).Ok? &&
        spine.items == old(spine.items) + MapResult(SpineItemrefs(opf), e => SpineEntry(es, e)).value &&
        (dialect == Epub30 ==> (Epub3.NavItems(opf) == [] && manifest.entries == es)) &&
        (dialect == Epub20 ==> (Epub2.TocId(opf).Ok? &&
          manifest.entries == (if Epub2.TocId(opf).value.None? then es else Remove(es, Epub2.TocId(opf).value)))) &&
        TocFrom(dialect, opf, es, zf, opfpath, old(toc.item), old(toc.title), old(toc.entries), toc)
      ensures dialect == Epub30 ==> toc.item == old(toc.item) && toc.title == old(toc.title) && toc.entries == old(toc.entries)
      ensures r.Ok? ==> ReadMetaFor(dialect, opf, old(meta)) == Ok(meta)
      ensures r == InitReadOutcome(dialect, opf, old(manifest.entries), old(meta), zf, opfpath)
      ensures r.Ok? ==> Identifiers(meta).Ok? && uid == UidOnRead(Identifiers(meta).value, opf.Get("unique-identifier"))
    {
      r := ReadStructure(opf);
      if r.Ok? {
        r := ReadMetadata(opf);
      }
    }

    /** `_init_write`: a fresh uid (`uuid.uuid4()`, given here as `u`) with
        `id` "uid_id" and `scheme` "uuid" becomes the only identifier; the
        `mimetype` member and the container document are written. */
    method InitWrite(u: Value)
      requires Valid()
      modifies this`uid, this`meta, zf`writes
      ensures Valid()
      ensures uid == Some(WriteUid(u))
      ensures meta == old(meta).(fields := old(meta).fields["identifiers" := Many([WriteUid(u)])])
      ensures zf.writes == old(zf.writes) +
        [("mimetype", Bytes("application/epub+zip")), ("META-INF/container.xml", Doc(ContainerDoc(opfpath)))]
    {
      uid := Some(WriteUid(u));
      meta := meta.(fields := meta.fields["identifiers" := Many([WriteUid(u)])]);
      zf.Write("mimetype", Bytes("application/epub+zip"));
      zf.Write("META-INF/container.xml", Doc(ContainerDoc(opfpath)));
    }

    /** `_write_toc` of the dialect, run only when the TOC has entries: the
        default item is taken when there is none, registered in the
        manifest, and the navigation document written beside the OPF. */
    method WriteTocStep()
      requires manifest.Valid()
      modifies manifest, toc`item, zf`writes
      ensures manifest.Valid()
      ensures old(toc.entries) == [] ==>
        toc.item == old(toc.item) && manifest.entries == old(manifest.entries) && zf.writes == old(zf.writes)
      ensures old(toc.entries) != [] ==>
        toc.item == Some(if old(toc.item).Some? then old(toc.item).value else DefaultTocItem(dialect)) &&
        manifest.entries == Registered(old(manifest.entries), toc.item.value) &&
        zf.writes == old(zf.writes) +
          [(Join(DirName(opfpath), toc.item.value.href), Doc(TocDocFor(dialect, toc.title, toc.entries)))]
    {
      if toc.entries != [] {
        if dialect == Epub20 {
          Epub2.WriteToc(manifest, zf, opfpath, toc);
        } else {
          Epub3.WriteToc(manifest, zf, opfpath, toc);
        }
      }
    }

    /** `_xml_meta` of the dialect. */
    method MetadataStep() returns (r: Result<Element>)
      requires WellShaped(meta)
      ensures r == MetadataFor(dialect, meta)
    {
      WellShapedIsShaped(meta, Epub2.META);
      WellShapedIsShaped(meta, Epub3.META);
      if dialect == Epub20 {
        r := Epub2.XmlMeta(meta);
      } else {
        r := Epub3.XmlMeta(meta);
      }
    }

    /** `_xml_manifest` of the dialect. */
    method ManifestStep() returns (r: Result<Element>)
      requires manifest.Valid()
      modifies manifest
      ensures manifest.Valid()
      ensures r == ManifestFor(dialect, old(manifest.entries), toc.item, guess)
      ensures manifest.entries == ManifestLeft(dialect, old(manifest.entries), toc.item, guess)
    {
      if dialect == Epub20 {
        r := Epub2.XmlManifest2(manifest, toc, guess);
      } else {
        r := Epub3.XmlManifest3(manifest, toc, guess);
      }
    }

    /** `_xml_spine` of the dialect. */
    method SpineStep() returns (r: Result<Element>)
      ensures r == SpineFor(dialect, spine.items, toc.item)
    {
      if dialect == Epub20 {
        r := Epub2.XmlSpine2(spine, toc);
      } else {
        r := XmlSpine(spine);
      }
    }

    /** The package element of `_write_opf`, built in the source's order. */
    method PackageStep() returns (r: Result<Element>)
      requires Valid()
      modifies manifest
      ensures manifest.Valid()
      ensures r == PackageFor(dialect, uid, meta, old(manifest.entries), spine.items, toc.item, guess)
      ensures manifest.entries == PackageManifest(dialect, uid, meta, old(manifest.entries), toc.item, guess)
    {
      if uid.None? {
        return Err(TypeError);
      }
      var id := uid.value.Index("id");
      if id.Err? {
        return Err(id.error);
      }
      var md := MetadataStep();
      if md.Err? {
        return Err(md.error);
      }
      var man := ManifestStep();
      if man.Err? {
        return Err(man.error);
      }
      var sp := SpineStep();
      if sp.Err? {
        return Err(sp.error);
      }
      if id.value.None? {
        return Err(NoneTypeKeyError);
      }
      r := Ok(PackageElement(VersionOf(dialect), id.value.value, [md.value, man.value, sp.value]));
    }

    /** The package `_write_opf` builds from the current state, the manifest
        having held `es` before the TOC was written. */
    ghost function Outcome(es: Entries): Result<Element>
      requires Valid()
      reads this, manifest, spine, toc
    {
      PackageFor(dialect, uid, meta, PackageEntries(es, toc.entries, toc.item), spine.items, toc.item, guess)
    }

    /** The package written to the OPF path, once the TOC is. */
    method WritePackage() returns (r: Result<()>)
      requires Valid()
      modifies manifest, zf`writes
      ensures manifest.Valid()
      ensures
        var pkg := PackageFor(dialect, uid, meta, old(manifest.entries), spine.items, toc.item, guess);
        r == Done(pkg) && zf.writes == old(zf.writes) + Emitted(opfpath, pkg)
      ensures manifest.entries == PackageManifest(dialect, uid, meta, old(manifest.entries), toc.item, guess)
    {
      var pkg := PackageStep();
      if pkg.Err? {
        return Err(pkg.error);
      }
      zf.Write(opfpath, Doc(pkg.value));
      r := Ok(());
    }

    /** `_write_opf` at time `now`: the modification date is set, the TOC
        written when it has entries, and the package written to the OPF
        path. */
    method WriteOpf(now: Date) returns (r: Result<()>)
      requires Valid()
      modifies this`meta, manifest, toc`item, zf`writes
      ensures Valid()
      ensures meta == old(meta).(dates := old(meta).dates.(modification := Some(now)))
      ensures old(toc.entries) == [] ==> toc.item == old(toc.item)
      ensures old(toc.entries) != [] ==>
        toc.item == Some(if old(toc.item).Some? then old(toc.item).value else DefaultTocItem(dialect))
      ensures
        var tocWrites := if old(toc.entries) == [] then [] else
          [(Join(DirName(opfpath), toc.item.value.href), Doc(TocDocFor(dialect, toc.title, toc.entries)))];
        r == Done(Outcome(old(manifest.entries))) &&
        zf.writes == old(zf.writes) + tocWrites + Emitted(opfpath, Outcome(old(manifest.entries)))
      ensures manifest.entries ==
        PackageManifest(dialect, uid, meta, PackageEntries(old(manifest.entries), toc.entries, toc.item), toc.item, guess)
    {
      meta := meta.(dates := meta.dates.(modification := Some(now)));
      WriteTocStep();
      assert manifest.entries == PackageEntries(old(manifest.entries), toc.entries, toc.item);
      r := WritePackage();
    }
  }

  // ------------------------------------------------------- open.py

  /** `open.__init__`'s argument checks, in the source's order: the mode,
      then an OPF path in read mode, then a missing version in write
      mode. */
  function Validate(mode: string, version: Option<string>, opfpath: Option<string>): (r: Result<()>)
    ensures r.Ok? <==> (mode == "r" && opfpath.None?) || (mode == "w" && version.Some?)
    ensures r.Err? ==> r.error == TypeError
  {
    if mode != "r" && mode != "w" then Err(TypeError)
    else if mode == "r" && opfpath.Some? then Err(TypeError)
    else if mode == "w" && version.None? then Err(TypeError)
    else Ok(())
  }

  /** Python truthiness of an optional string. */
  predicate Given(s: Option<string>)
  {
    s.Some? && s.value != ""
  }

  /** `self._version or opftree.get('version')`. */
  function ChosenVersion(version: Option<string>, opf: Element): Option<string>
  {
    if Given(version) then version else opf.Get("version")
  }

  /** `self._opfpath or 'content.opf'`. */
  function WritePath(opfpath: Option<string>): string
  {
    if Given(opfpath) then opfpath.value else "content.opf"
  }

  const CONTAINER_PATH := "META-INF/container.xml"

  /** The reading half of `__enter__` up to the version: the container is
      parsed, its rootfile's `full-path` opened and parsed as the package. */
  function Locate(z: Archive): (r: Result<(string, Element)>)
    reads z
    ensures r.Ok? ==> r.value.0 in z.members && z.members[r.value.0] == Doc(r.value.1)
  {
    match z.Read(Some(CONTAINER_PATH))
    case Err(x) => Err(x)
    case Ok(c) =>
      match Parse(c)
      case Err(x) => Err(x)
      case Ok(container) =>
        match RootfilePath(container)
        case Err(x) => Err(x)
        case Ok(path) =>
          match z.Read(path)
          case Err(x) => Err(x)
          case Ok(q) =>
            match Parse(q)
            case Err(x) => Err(x)
            case Ok(opf) => Ok((path.value, opf))
  }

  /** An archive holding what `_init_write` and `_write_opf` wrote is
      located again: the container names the OPF path, which holds the
      package. */
  lemma LocateWritten(z: Archive, opfpath: string, pkg: Element)
    requires CONTAINER_PATH in z.members && z.members[CONTAINER_PATH] == Doc(ContainerDoc(opfpath))
    requires opfpath in z.members && z.members[opfpath] == Doc(pkg)
    ensures Locate(z) == Ok((opfpath, pkg))
  {
    ContainerRoundTrip(opfpath);
  }

  /** Reopening what a writer of dialect `d` produced, without a version
      argument, locates its package and dispatches to `d` again. */
  lemma ReopenedDialect(z: Archive, d: Dialect, uid: Option<AS>, meta: Meta, es: Entries, items: seq<Item>,
                        tocItem: Option<Item>, guess: string -> Option<string>, opfpath: string, pkg: Element)
    requires WellShaped(meta) && PackageFor(d, uid, meta, es, items, tocItem, guess) == Ok(pkg)
    requires CONTAINER_PATH in z.members && z.members[CONTAINER_PATH] == Doc(ContainerDoc(opfpath))
    requires opfpath in z.members && z.members[opfpath] == Doc(pkg)
    ensures Locate(z) == Ok((opfpath, pkg))
    ensures LookupVersion(ChosenVersion(None, pkg)) == Ok(d)
  {
    LocateWritten(z, opfpath, pkg);
    PackageNamesDialect(d, uid, meta, es, items, tocItem, guess, pkg);
  }

  /** What `__enter__` returns in read mode: the container and the package
      must be found, the version known, and `_init_read` must succeed on a
      fresh document, whose manifest is empty and whose metadata is
      initial. */
  function EnterReadOutcome(version: Option<string>, z: Archive): Result<()>
    reads z
  {
    match Locate(z)
    case Err(e) => Err(e)
    case Ok(found) =>
      match LookupVersion(ChosenVersion(version, found.1))
      case Err(e) => Err(e)
      case Ok(d) => InitReadOutcome(d, found.1, [], InitialMeta(), z, found.0)
  }

  /** The document `_init_read` leaves, from a fresh one, for the package
      `opf`. */
  ghost predicate ReadFrom(doc: Document, opf: Element)
    reads doc, doc.manifest, doc.spine, doc.toc, doc.zf
  {
    var es := ReadItems([], ManifestItems(opf));
    es.Ok? && MapResult(SpineItemrefs(opf), e => SpineEntry(es.value, e)).Ok? &&
    doc.spine.items == MapResult(SpineItemrefs(opf), e => SpineEntry(es.value, e)).value &&
    (doc.dialect == Epub30 ==> (Epub3.NavItems(opf) == [] && doc.manifest.entries == es.value)) &&
    (doc.dialect == Epub20 ==> (Epub2.TocId(opf).Ok? &&
      doc.manifest.entries == (if Epub2.TocId(opf).value.None? then es.value else Remove(es.value, Epub2.TocId(opf).value)))) &&
    TocFrom(doc.dialect, opf, es.value, doc.zf, doc.opfpath, None, None, [], doc.toc) &&
    ReadMetaFor(doc.dialect, opf, InitialMeta()) == Ok(doc.meta) &&
    Identifiers(doc.meta).Ok? && doc.uid == UidOnRead(Identifiers(doc.meta).value, opf.Get("unique-identifier"))
  }

  /** The `open` object: its arguments, the archive, and the document once
      `__enter__` made one. `epub` None and `attached` false stand for the
      attributes `_epub` and `_zf` being absent. */
  class Opener {
    const mode: string
    const version: Option<string>
    const opfpath: Option<string>
    const zf: Archive
    var epub: Option<Document>
    var attached: bool

    ghost predicate Valid()
      reads this, (if epub.Some? then {epub.value, epub.value.manifest} else {})
    {
      Validate(mode, version, opfpath).Ok? &&
      (!attached ==> epub.None?) &&
      (epub.Some? ==> epub.value.zf == zf && epub.value.Valid())
    }

    constructor (mode: string, version: Option<string>, opfpath: Option<string>, zf: Archive)
      requires Validate(mode, version, opfpath).Ok?
      ensures Valid()
      ensures this.mode == mode && this.version == version && this.opfpath == opfpath && this.zf == zf
      ensures epub.None? && attached
    {
      this.mode := mode;
      this.version := version;
      this.opfpath := opfpath;
      this.zf := zf;
      epub := None;
      attached := true;
    }

    /** `__enter__` in read mode. The document is recorded before
        `_init_read` runs, so a failing read still leaves it in `_epub`. */
    method EnterRead(guess: string -> Option<string>) returns (r: Result<Document>)
      requires Valid() && attached && mode == "r"
      modifies this`epub
      ensures Valid() && attached
      ensures Locate(zf).Err? ==> r == Err(Locate(zf).error) && epub == old(epub)
      ensures Locate(zf).Ok? && LookupVersion(ChosenVersion(version, Locate(zf).value.1)).Err? ==>
        r == Err(LookupVersion(ChosenVersion(version, Locate(zf).value.1)).error) && epub == old(epub)
      ensures Locate(zf).Ok? && LookupVersion(ChosenVersion(version, Locate(zf).value.1)).Ok? ==>
        epub.Some? && fresh(epub.value) && epub.value.zf == zf && epub.value.opfpath == Locate(zf).value.0 &&
        LookupVersion(ChosenVersion(version, Locate(zf).value.1)) == Ok(epub.value.dialect) &&
        (r.Ok? ==> r.value == epub.value && ReadFrom(r.value, Locate(zf).value.1))
      ensures r.Ok? <==> EnterReadOutcome(version, zf).Ok?
      ensures r.Err? ==> r.error == EnterReadOutcome(version, zf).error
    {
      var c := zf.Read(Some(CONTAINER_PATH));
      if c.Err? {
        return Err(c.error);
      }
      var container := Parse(c.value);
      if container.Err? {
        return Err(container.error);
      }
      var path := RootfilePath(container.value);
      if path.Err? {
        return Err(path.error);
      }
      var q := zf.Read(path.value);
      if q.Err? {
        return Err(q.error);
      }
      var opf := Parse(q.value);
      if opf.Err? {
        return Err(opf.error);
      }
      var d := LookupVersion(ChosenVersion(version, opf.value));
      if d.Err? {
        return Err(d.error);
      }
      r := ReadDocument(d.value, path.value.value, opf.value, guess);
    }

    /** The end of `__enter__` in read mode: the document of the dialect
        is made, recorded in `_epub`, and `_init_read` run on the OPF. */
    method ReadDocument(d: Dialect, path: string, opf: Element, guess: string -> Option<string>) returns (r: Result<Document>)
      requires Valid() && attached
      modifies this`epub
      ensures Valid() && attached
      ensures epub.Some? && fresh(epub.value) && epub.value.zf == zf && epub.value.opfpath == path && epub.value.dialect == d
      ensures r.Ok? ==> r.value == epub.value && ReadFrom(r.value, opf)
      ensures r.Ok? <==> InitReadOutcome(d, opf, [], InitialMeta(), zf, path).Ok?
      ensures r.Err? ==> r.error == InitReadOutcome(d, opf, [], InitialMeta(), zf, path).error
    {
      var doc := new Document(d, zf, path, guess);
      epub := Some(doc);
      var init := doc.InitRead(opf);
      if init.Err? {
        return Err(init.error);
      }
      r := Ok(doc);
    }

    /** `__enter__` in write mode: the OPF path defaults to `content.opf`,
        the version is looked up, and `_init_write` runs. */
    method EnterWrite(u: Value, guess: string -> Option<string>) returns (r: Result<Document>)
      requires Valid() && attached && mode == "w"
      modifies this`epub, zf`writes
      ensures Valid() && attached
      ensures r.Ok? <==> LookupVersion(version).Ok?
      ensures r.Err? ==> r == Err(KeyError(version)) && epub == old(epub) && zf.writes == old(zf.writes)
      ensures r.Ok? ==>
        fresh(r.value) && epub == Some(r.value) && r.value.zf == zf &&
        LookupVersion(version) == Ok(r.value.dialect) && r.value.opfpath == WritePath(opfpath) &&
        r.value.uid == Some(WriteUid(u)) && "identifiers" in r.value.meta.fields &&
        r.value.meta.fields["identifiers"] == Many([WriteUid(u)]) &&
        zf.writes == old(zf.writes) + [("mimetype", Bytes("application/epub+zip")),
                                       (CONTAINER_PATH, Doc(ContainerDoc(WritePath(opfpath))))]
    {
      var path := WritePath(opfpath);
      var d := LookupVersion(version);
      if d.Err? {
        return Err(d.error);
      }
      var doc := new Document(d.value, zf, path, guess);
      epub := Some(doc);
      doc.InitWrite(u);
      r := Ok(doc);
    }

    /** `__enter__`: the document of the mode, returned once its `_init_read`
        or `_init_write` has run. After `__exit__` the archive is gone. */
    method Enter(u: Value, guess: string -> Option<string>) returns (r: Result<Document>)
      requires Valid()
      modifies this`epub, zf`writes
      ensures Valid() && attached == old(attached)
      ensures !old(attached) ==> r == Err(AttributeError) && epub == old(epub) && zf.writes == old(zf.writes)
      ensures old(attached) && mode == "r" ==> zf.writes == old(zf.writes)
      ensures old(attached) && mode == "r" && r.Ok? ==>
        Locate(zf).Ok? && epub == Some(r.value) && r.value.opfpath == Locate(zf).value.0 &&
        LookupVersion(ChosenVersion(version, Locate(zf).value.1)) == Ok(r.value.dialect) &&
        ReadFrom(r.value, Locate(zf).value.1)
      ensures old(attached) && mode == "r" ==>
        (r.Ok? <==> EnterReadOutcome(version, zf).Ok?) && (r.Err? ==> r.error == EnterReadOutcome(version, zf).error)
      ensures old(attached) && mode == "w" ==> (r.Ok? <==> LookupVersion(version).Ok?)
      ensures old(attached) && mode == "w" && r.Ok? ==>
        epub == Some(r.value) && r.value.opfpath == WritePath(opfpath) &&
        LookupVersion(version) == Ok(r.value.dialect) && r.value.uid == Some(WriteUid(u))
    {
      if !attached {
        return Err(AttributeError);
      }
      if mode == "r" {
        r := EnterRead(guess);
      } else {
        r := EnterWrite(u, guess);
      }
    }

    /** The objects `__exit__` may change through the document. */
    function DocumentFrame(): set<object>
      reads this
    {
      if epub.Some? then {epub.value, epub.value.manifest, epub.value.toc} else {}
    }

    /** `__exit__` at time `now`: in write mode `_write_opf` runs first and
        an error leaves the archive open; then the archive is closed and
        `_epub` and `_zf` deleted, the first deletion failing when no
        document was made. */
    method Exit(now: Date) returns (r: Result<()>)
      requires Valid()
      modifies this`epub, this`attached, zf`writes, zf`closed, DocumentFrame()
      ensures mode == "w" && old(epub).None? ==>
        r == Err(AttributeError) && zf.writes == old(zf.writes) && zf.closed == old(zf.closed) &&
        epub == old(epub) && attached == old(attached)
      ensures mode == "r" ==> zf.writes == old(zf.writes)
      ensures mode == "r" && !old(attached) ==> r == Err(AttributeError) && zf.closed == old(zf.closed) && !attached
      ensures mode == "r" && old(attached) && old(epub).None? ==> r == Err(AttributeError) && zf.closed && attached
      ensures old(epub).Some? ==> old(epub).value.Valid()
      ensures old(epub).Some? && mode == "r" ==> r == Ok(())
      ensures old(epub).Some? && mode == "w" ==>
        var d := old(epub).value;
        r == Done(d.Outcome(old(d.manifest.entries))) &&
        (r.Ok? ==> |zf.writes| > 0 && zf.writes[|zf.writes| - 1] == (d.opfpath, Doc(d.Outcome(old(d.manifest.entries)).value))) &&
        (r.Err? ==> zf.closed == old(zf.closed) && epub == old(epub) && attached)
      ensures r.Ok? ==> zf.closed && epub.None? && !attached
    {
      if mode == "w" {
        if epub.None? {
          return Err(AttributeError);
        }
        r := epub.value.WriteOpf(now);
        if r.Err? {
          return;
        }
      }
      if !attached {
        return Err(AttributeError);
      }
      zf.Close();
      if epub.None? {
        return Err(AttributeError);
      }
      epub := None;
      attached := false;
      r := Ok(());
    }
  }

  /** `open(infile, mode, version, opfpath)`: the checks, then the archive,
      which write mode starts empty. */
  method Open(infile: map<string, Payload>, mode: string, version: Option<string>, opfpath: Option<string>)
    returns (r: Result<Opener>)
    ensures r.Ok? <==> Validate(mode, version, opfpath).Ok?
    ensures r.Err? ==> r.error == TypeError
    ensures r.Ok? ==>
      fresh(r.value) && fresh(r.value.zf) && r.value.Valid() &&
      r.value.mode == mode && r.value.version == version && r.value.opfpath == opfpath &&
      r.value.zf.members == (if mode == "w" then map[] else infile) &&
      r.value.zf.writes == [] && !r.value.zf.closed && r.value.epub.None? && r.value.attached
  {
    var v := Validate(mode, version, opfpath);
    if v.Err? {
      return Err(v.error);
    }
    var zf := new Archive(if mode == "w" then map[] else infile);
    var o := new Opener(mode, version, opfpath, zf);
    r := Ok(o);
  }
}
