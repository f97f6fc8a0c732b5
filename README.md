# dawn EPUB core in Dafny

A model of the EPUB document layer of *dawn*, a Python library that reads
and writes EPUB 2 (OPF 2.0.1) and EPUB 3 books as ZIP archives. The model
covers:

- the **document model**: the insertion-ordered `Manifest` of items, the
  `Spine`, the `Toc` tree with its recursive `append`, `AttributedString`
  and the metadata dictionary;
- the two **dialects**, which fill that model from a package document and
  turn it back into one:
  - `Epub20`: a table-driven Dublin Core reader and writer, `opf:event`
    dates, and the NCX navigation map;
  - `Epub30`: `meta[refines]` refinements, the `identifier-type` rename, the
    `created`/`date`/`modified` tags, and the `ol`/`a` navigation document;
- the **resolver** (`getxmlattr`, `ns`) and the length-dispatched
  `parse_date`;
- the **lifecycle** of `open`: argument checks, version dispatch through the
  `VERSIONS` registry, `__enter__` and `__exit__`;
- the single-module edition `dawn/__init__.py`, where its text differs from
  the split modules.

XML is a datatype: an element has a `(namespace, local)` tag, a map of
attributes in Clark notation, optional text and a sequence of children.
Both `findall` and `find` are filters over children (`Xml.Select`,
`Xml.Find`). The ZIP archive is a class: a map of members, a log of writes,
and a closed flag (`Zip.Archive`). Everything Python raises is an
`Err(...)` value of a `Result` (the `Wrappers` module). The model keeps the
source's own error conditions: `TypeError`, `KeyError` with its key, the
`KeyError(NoneType)` that lxml's element builder raises on a None attribute
value (`NoneTypeKeyError`), and `AttributeError` on `None`.

Files:

- `wrappers.dfy`: Option, Result, the errors, and `MapResult`.
- `xml.dfy`: elements and paths.
- `utils.dfy`: `dawn/utils.py`.
- `zip.dfy`: the archive and `posixpath`.
- `epub.dfy`: `dawn/epub.py`.
- `epub2.dfy`, `epub3.dfy`: the two dialects.
- `lifecycle.dfy`:
  - the `Epub` base-class lifecycle (`_init_read`, `_init_write`,
    `_write_opf`)
  - `dawn/open.py`
- `monolith.dfy`: `dawn/__init__.py`.

`dawn/__init__.py` repeats most of the split text verbatim, and that text
is modelled once:

- `open` (dawn/__init__.py:14-58)
- `_init_read` and `_init_write` (89-118)
- the manifest reader and the spine reader (141-148)
- `_xml_spine` (167-171)
- `writestr` (179-185)
- `Manifest` and `Spine` (199-242)
- `getxmlattr`, `ns` and `parse_date` (534-573)
- the EPUB 3 `_read_toc` and `_read_meta` (404-475)

The `Monolith` module holds only what differs:

- `Toc` with a title on every list
- the `str`-based `AttributedString`
- `_xml_meta`, which indexes every attribute
- `_xml_manifest`, which always emits `media-type`
- the `_toc_item` attribute of EPUB 2
- an `Epub20._xml_spine` that returns `None`
- the NCX default title

## Model

| member | source | states |
|---|---|---|
| `Wrappers.MapResult` | dawn/epub.py:123-126 | a generator consumed in order: Ok exactly when every element maps to Ok, with the results pointwise |
| `Wrappers.MapResultFirstError` | dawn/epub.py:123-126 | a failing map's error is that of `f(xs[i])` for the least `i` whose element fails |
| `Xml.Find` | dawn/epub2.py:16 | `find` is the first element `findall` selects, None when it selects nothing |
| `Xml.Tagged` | dawn/epub.py:98 | the children that a one-step path selects: never more than there are children |
| `Xml.TaggedConcat` | dawn/epub2.py:21 | selecting from two runs of children is selecting from each in turn |
| `Xml.TaggedAll` | dawn/epub2.py:21 | a run of children that all carry the tag is selected whole |
| `Xml.SelectThrough` | dawn/epub.py:98 | a two-step path through the only child with the first tag selects among that child's children |
| `Xml.TaggedMembers` | dawn/epub.py:98 | a child step keeps exactly the children with that tag |
| `Xml.WithAttr` | dawn/epub3.py:16 | the `[@key="value"]` predicate keeps exactly the elements whose attribute has that value |
| `Utils.UriInNs` | dawn/utils.py:6-13 | every prefix the code indexes `E` with is registered in `NS` under its URI |
| `Utils.RnsInvertsNs` | dawn/utils.py:6-15 | `RNS` inverts `NS` in both directions: its keys are `NS`'s values, `NS[RNS[u]] == u` and `RNS[NS[p]] == p` |
| `Utils.DcIsNotOpf` | dawn/utils.py:6-13 | a `dc:` tag never equals an `opf:` tag, because the namespace URIs differ |
| `Utils.SplitColon` | dawn/utils.py:21 | `split(':', 1)` cuts at the first colon: the parts rejoin to the input and the prefix has no colon |
| `Utils.IndexOf` | dawn/utils.py:21 | the position of the first occurrence of the character, with none before it |
| `Utils.SplitPrefixed` | dawn/utils.py:21 | `'p:x'` with a colon-free p splits into exactly (p, x) |
| `Utils.LocalNamePrefixed` | dawn/epub2.py:62 | `k.split(':', 1)[-1]` of `'p:x'` is x |
| `Utils.GetXmlAttr` | dawn/utils.py:19-28 | a prefixed name reads `{NS[p]}x`, and an unknown prefix is KeyError(p); a bare present name reads the attribute; otherwise `{RNS[namespace]}x` is read, built with the prefix, and an unregistered or missing namespace is a KeyError |
| `Utils.GetXmlAttrOf` | dawn/epub2.py:23 | `getxmlattr` of a `find` that found nothing is the AttributeError on None |
| `Utils.Ns` | dawn/utils.py:30-35 | `ns('p:x')` is `{NS[p]}x`, or KeyError when p is unknown; a bare name comes back unchanged |
| `Utils.NsAgreesWithGetXmlAttr` | dawn/utils.py:19-35 | for a prefixed name, `ns` succeeds exactly when `getxmlattr` does, and `getxmlattr` reads `ns(name)` |
| `Utils.TableKeyNames` | dawn/epub2.py:39-56 | every attribute that a metadata table lists is a table key |
| `Utils.OpfTableKey` | dawn/epub2.py:39-56 | every `opf:` attribute the tables list is a table key |
| `Utils.TableKeyNs` | dawn/utils.py:30-35 | `ns` never fails on a table key |
| `Utils.SplitTableKey` | dawn/utils.py:30-35 | a prefixed table key splits as `opf` and the rest, and `ns` of it is `{opf URI}rest` |
| `Utils.NsSharesLocalName` | dawn/utils.py:30-35 | two table keys with the same `ns` name have the same local name |
| `Utils.FallbackKeyIsNoTableKey` | dawn/utils.py:28 | the fallback key `{dc}x` that `getxmlattr` builds is never an attribute name the writer produces |
| `Utils.FallbackMissesNamespacedAttribute` | dawn/utils.py:26-28 | `getxmlattr(spine, 'toc')` misses an `{opf URI}toc` attribute: the fallback looks under `{opf}toc` |
| `Utils.FormatForLength` | dawn/utils.py:37-45 | a format exists exactly for the lengths 4, 7, 10 and 20, and it is the format of that width |
| `Utils.ParseDate` | dawn/utils.py:37-45 | picks the format by length alone; any other length is None; the date keeps the text |
| `Utils.StampReparses` | dawn/epub2.py:81 | a written timestamp is 20 characters long, parses back as a timestamp, and stamps back to itself |
| `Zip.Parse` | dawn/epub2.py:30 | parsing a member succeeds exactly on an XML member |
| `Zip.Archive.constructor` | dawn/open.py:20 | an opened archive holds the given members, has no writes and is not closed |
| `Zip.Archive.Read` | dawn/epub.py:143-146 | opening a member succeeds exactly when it exists; otherwise a KeyError |
| `Zip.Archive.Write` | dawn/epub.py:131-132 | `writestr` appends one write to the log and changes nothing else |
| `Zip.Archive.Close` | dawn/open.py:50 | `__exit__` of the archive closes it |
| `Zip.AfterLastSlash` | dawn/epub.py:148-149 | the index just after the last `/`: no slash follows it |
| `Zip.RStripSlash` | dawn/epub.py:148-149 | strips exactly the trailing run of slashes |
| `Zip.DirName` | dawn/epub.py:148-149 | `dirname` of a slash-free path is empty and is always a prefix of the path |
| `Zip.Join` | dawn/epub.py:148-149 | `join` with an absolute b is b, with an empty a is b, and always ends with b |
| `Zip.JoinOpfDir` | dawn/epub.py:148-149 | an href is resolved against the OPF directory: as-is beside a top-level OPF, under `folder/` otherwise |
| `Epub.Mimetype` | dawn/epub.py:161-166 | `.html` and `.htm` hrefs are `application/xhtml+xml`; every other href is what `guess_type` says |
| `Epub.DecimalRoundTrip` | dawn/epub.py:176 | the decimal rendering in `'item-{}'.format(n)` is digits and parses back to n |
| `Epub.Decimal` | dawn/epub.py:176 | the decimal rendering of a natural number is never empty |
| `Epub.ItemIdInjective` | dawn/epub.py:176 | `item-<i>` equals `item-<j>` exactly when i == j |
| `Epub.Position` | dawn/epub.py:180-185 | the index of a key in the insertion-ordered dict: the first with that key, or None when there is none |
| `Epub.Store` | dawn/epub.py:185 | `dict.__setitem__`: an existing key is replaced in place, keeping size and order; a new key goes at the end; keys stay distinct |
| `Epub.Remove` | dawn/epub2.py:106 | `del`/`pop` removes exactly the entry of the key and keeps the others in order; a missing key changes nothing |
| `Epub.Lookup` | dawn/epub.py:103 | `manifest[k]` is the stored item, or KeyError(k) |
| `Epub.Values` | dawn/epub.py:115 | `manifest.values()` are the items in insertion order |
| `Epub.AddAllFromEmpty` | dawn/epub.py:174-178 | N adds from an empty manifest give `item-0` … `item-(N-1)` in order, pairwise distinct, size N |
| `Epub.AddAllNumbered` | dawn/epub.py:174-178 | adds after a numbered prefix continue the numbering |
| `Epub.NumberedDistinct` | dawn/epub.py:174-178 | synthesised ids never collide with each other |
| `Epub.AddAfterRemovalOverwrites` | dawn/epub.py:174-178 | after N adds to an empty manifest and the removal of `item-k`, the next add takes `item-(N-1)`: when k is not the last id it overwrites the entry stored under `item-(N-1)` and the size stays N-1; otherwise the new entry goes last |
| `Epub.BaseHref` | dawn/epub.py:188 | `split('#', 1)[0]` has no `#`, and an href without `#` is unchanged |
| `Epub.FirstWithHref` | dawn/epub.py:189-190 | the index of the first item with that href, or None when there is none |
| `Epub.ByHref` | dawn/epub.py:187-191 | the first item in insertion order whose href is the fragment-free href; KeyError(base) exactly when none matches |
| `Epub.ByHrefIgnoresFragment` | dawn/epub.py:187-191 | `byhref(h + '#' + f) == byhref(h)` for an h without `#` |
| `Epub.SetEntry` | dawn/epub.py:180-185 | a str is stored as `Item(k, str)` and an item as it is; anything else is TypeError |
| `Epub.Manifest.constructor` | dawn/epub.py:28 | a new manifest is empty |
| `Epub.Manifest.Add` | dawn/epub.py:174-178 | an href becomes `Item('item-<len before>', href)`, stored under its iid; an item is stored under its own iid; it returns the item |
| `Epub.Manifest.SetItem` | dawn/epub.py:180-185 | succeeds exactly for a str or an item, which it stores; a TypeError leaves the manifest unchanged |
| `Epub.Manifest.Pop` | dawn/epub2.py:28 | `pop(k)` returns `manifest[k]` (or KeyError) and removes the entry |
| `Epub.Manifest.Delete` | dawn/epub2.py:106 | `del manifest[k]` removes the entry, and is KeyError(k) exactly when k is absent |
| `Epub.Spine.constructor` | dawn/epub.py:29 | a new spine is empty |
| `Epub.Spine.Append` | dawn/epub.py:194-198 | appends at the end exactly when the argument is a manifest item; otherwise TypeError and the spine is unchanged |
| `Epub.ExpandSpec` | dawn/epub.py:211-221 | `append` succeeds exactly on accepted arguments (a str needs a title, all the way down; an existing node is taken as is); every failure is TypeError; a str becomes one node with that href and title whose children are the expansions of the tuples, in order |
| `Epub.ExpandAllSpec` | dawn/epub.py:216-217 | the children loop succeeds exactly when every tuple is accepted, and gives one node per tuple, in order |
| `Epub.Build` | dawn/epub.py:211-221 | the recursive `append` (a loop over the children) builds exactly the expansion of its argument |
| `Epub.Toc.constructor` | dawn/epub.py:224-228 | `Toc(item, title)` stores both and starts empty |
| `Epub.Toc.Append` | dawn/epub.py:211-221 | appends the built node at the end and returns it; on an error the list is unchanged |
| `Epub.AS.Index` | dawn/epub.py:231-234 | `astr[k]` is the attribute value, or KeyError(k) |
| `Epub.AS.Str` | dawn/epub.py:239-240 | `str(astr)` is the text only when the value is a str; `None` or a uuid object makes `__str__` a TypeError |
| `Epub.WithDate` | dawn/epub2.py:73 | `meta['dates'][k] = v` changes exactly the date under k |
| `Epub.InitialMeta` | dawn/epub.py:31-42 | a fresh document has no dates and only falsy fields |
| `Epub.ShapedSuffix` | dawn/epub2.py:85 | a well-shaped metadata dictionary stays well-shaped for any tail of the table |
| `Epub.DateElements` | dawn/epub2.py:78-83 | one `dc:date` per date that is set, each carrying `opf:event` with its key; none exactly when no date is set |
| `Epub.DateElementsTagged` | dawn/epub2.py:78-83 | the date elements are only `dc:date` elements |
| `Epub.FirstWithId` | dawn/epub.py:51 | the index of the first identifier whose `id` matches, or None when none matches |
| `Epub.UidOnRead` | dawn/epub.py:50-51 | uid is the first identifier whose `id` equals `unique-identifier`, and None exactly when none does |
| `Epub.WriteUid` | dawn/epub.py:54-56 | the synthesised uid has `id='uid_id'` and `scheme='uuid'`, and its str is defined only for a text value |
| `Epub.WrittenUidIsFound` | dawn/epub.py:50-57 | the written uid is selected again on read when no earlier identifier has `id='uid_id'` |
| `Epub.ItemElement` | dawn/epub.py:116-119 | an item element with `id`, `href` and a `media-type` only when the mimetype is not None; an item without iid is the builder's KeyError(NoneType) |
| `Epub.ManifestElement` | dawn/epub.py:113-120 | one item element per entry, in order; Ok exactly when every entry has an iid |
| `Epub.XmlManifest` | dawn/epub.py:113-120 | the serialisation loop builds exactly the manifest element of the entries' values |
| `Epub.ItemrefElement` | dawn/epub.py:124 | `itemref` whose `idref` is the item's iid; an item without iid is the builder's KeyError(NoneType) |
| `Epub.SpineElement` | dawn/epub.py:122-126 | one `itemref` per spine entry, in order, and no attributes |
| `Epub.XmlSpine` | dawn/epub.py:122-126 | the serialisation loop builds exactly the spine element |
| `Epub.ReadItem` | dawn/epub.py:98-99 | the href is looked up first, then the id, and an error of either `getxmlattr` passes through in that order; a None href (an `opf:item` with no `href` attribute, say) is a TypeError from `__setitem__`; otherwise `Item(id, href)` is stored under the id |
| `Epub.ReadOneItem` | dawn/epub.py:99 | one manifest assignment changes the manifest as `ReadItem` says, or fails with its error |
| `Epub.ReadManifest` | dawn/epub.py:97-99 | `_read_manifest` stores every `opf:manifest/opf:item` in document order; on failure the error is the one the first failing item raises |
| `Epub.ReadItemsInto` | dawn/epub.py:98-99 | the loop over items stores them one after another; on failure the error is the first failing item's |
| `Epub.ManifestRoundTrip` | dawn/epub.py:97-120 | reading back the serialised manifest of coherent entries (each keyed by its own iid) gives the same entries in the same order |
| `Epub.ReadWrittenItem` | dawn/epub.py:97-120 | a written item element reads back as its own entry |
| `Epub.ReadSpine` | dawn/epub.py:101-104 | `_read_spine` appends `manifest[idref]` for every itemref, in order; the first missing idref fails, and its error is the one returned |
| `Epub.AppendSpineEntries` | dawn/epub.py:102-104 | `_read_spine`'s loop on the manifest `es` appends the looked-up items in order; on failure the error is the first failing lookup's |
| `Epub.AppendEach` | dawn/epub.py:102-104 | the loop `spine.append`s `f` of each itemref in order: the spine gains exactly the mapped items, or the loop stops with the error of the first lookup that fails |
| `Epub.SpineRoundTrip` | dawn/epub.py:101-126 | the serialised spine reads back as the same items when each is the manifest entry of its iid |
| `Epub.LookupVersion` | dawn/epub.py:15-22 | `VERSIONS[v]` is the class registered under v (`2.0` or `3.0`); anything else is KeyError(v) |
| `Epub.VersionsRegistry` | dawn/epub.py:15-22 | each dialect is found under its own version, and `None` is found under none |
| `Epub.RootfilePath` | dawn/open.py:29 | the `full-path` of the container's rootfile; AttributeError exactly when there is no rootfile |
| `Epub.ContainerRoundTrip` | dawn/epub.py:61-68 | the written container names the OPF path it was written with |
| `Epub.WriteStr` | dawn/epub.py:134-141 | an item already in the manifest is written as is; anything else is added first; the data goes to the item's href joined to the OPF directory |
| `Epub.OpenItem` | dawn/epub.py:143-149 | opening an item succeeds exactly when its joined path is an XML member |
| `Epub.AttrsOf` | dawn/epub2.py:61-65 | the attribute dict of `extract` keeps a key only when its value is not None |
| `Epub.AttrsOfFails` | dawn/epub2.py:61-65 | the attribute dict fails exactly when some `getxmlattr(t, k)` does, with the error of the first failing key |
| `Epub.AttrsOfKeys` | dawn/epub2.py:61-65 | the dict's keys are exactly `k.split(':', 1)[-1]` for the keys `k` whose `getxmlattr(t, k)` is not None |
| `Epub.AttrsOfValues` | dawn/epub2.py:61-65 | each key holds the value of the last listed key of that local name whose value is not None, as the comprehension overwrites earlier ones |
| `Epub.AttrsOfTotal` | dawn/epub2.py:61-65 | for a `dc:` element and resolvable keys, the attribute dict is built and is keyed by local names |
| `Epub.ReadRow` | dawn/epub2.py:67-69 | a multi row stores the list of every `dc:<tag>` in order; a single row stores the first or None; an extraction error propagates |
| `Epub.ReadRowsStores` | dawn/epub2.py:67-69 | each row's result lands under its key, and keys of no row keep their values |
| `Epub.ReadRowsOk` | dawn/epub2.py:67-69 | the table read succeeds when every row does |
| `Epub.ReadTable` | dawn/epub2.py:67-69 | the loop over the table assigns exactly what `ReadRows` says |
| `Epub2.NavPointNode` | dawn/epub2.py:20-26 | a navPoint becomes a node with the href from `content@src` and the title from `navLabel/text`; a missing `content` is the AttributeError on None |
| `Epub2.NavListSelects` | dawn/epub2.py:21 | the loop over a navMap's children reads exactly the `navPoint` children |
| `Epub2.NavPointsSelects` | dawn/epub2.py:21 | nested navPoints are those under the node's own `navMap` children |
| `Epub2.NavPointChildren` | dawn/epub2.py:20-26 | a node's children are the nodes of its own nested navPoints, in document order |
| `Epub2.AppendNavPoints` | dawn/epub2.py:32-33 | the toc gains the parsed navPoint nodes in order, or fails with the parse error |
| `Epub2.AppendAll` | dawn/epub2.py:32-33 | the loop appends `f` of each navPoint in order: the toc gains exactly the mapped nodes, or the loop stops with the error of the first that fails |
| `Epub2.ReadToc` | dawn/epub2.py:15-37 | with no `toc` attribute nothing changes; otherwise the referenced item is popped into `toc.item` (a KeyError when it is absent), the NCX nodes are appended, and a `docTitle` text becomes `toc.title`; with the item present, the read succeeds exactly when the NCX member parses and every navPoint expands, and otherwise returns the parse error or the first navPoint error; the result is `TocOutcome` |
| `Epub2.LoadNcx` | dawn/epub2.py:29-37 | opening and parsing the NCX appends its nodes and sets the title when there is a `docTitle`; it succeeds exactly when the member parses and every navPoint expands, and otherwise returns the open or parse error, then the first navPoint error |
| `Epub2.TakeTitle` | dawn/epub2.py:35-37 | a `docTitle` text becomes the title; without one the title is kept |
| `Epub2.MetaKeyed` | dawn/epub2.py:39-56 | each row's key is its tag, plus `s` for a multi row |
| `Epub2.Extract` | dawn/epub2.py:59-65 | fails exactly when some `getxmlattr(t, k)` fails, with the first such error; otherwise the value is the element's text, and a local name is an attribute exactly when some listed key with that local name is present on `t`, with the value of the last such key |
| `Epub2.EventDate` | dawn/epub2.py:73 | `parse_date(astr)` dispatches on the attribute count, so it is None or a TypeError, never a date |
| `Epub2.ReadMeta` | dawn/epub2.py:57-73 | `_read_meta` computes exactly `ReadMetaSpec`: the table rows, then the `dc:date` loop |
| `Epub2.ReadDateElements` | dawn/epub2.py:71-73 | the date loop applies each `dc:date` in order |
| `Epub2.EventAttr` | dawn/epub2.py:71 | `opf:event` is read from `{opf URI}event` and stored as `event` |
| `Epub2.EventExtract` | dawn/epub2.py:71 | a date element extracts to its text with `event` when present |
| `Epub2.ReadDatesStayUnset` | dawn/epub2.py:71-73 | a date read from EPUB 2 is never set to a date: each key keeps its value or becomes None |
| `Epub2.DateWithoutEventFails` | dawn/epub2.py:72 | a `dc:date` without an event is KeyError('event') |
| `Epub2.WrittenDatesReadAsNone` | dawn/epub2.py:71-83 | reading the written dates back clears every date |
| `Epub2.DateElementRead` | dawn/epub2.py:71-83 | a written date extracts with its key as event, and `parse_date` then gives None |
| `Epub2.WrittenAttrsOk` | dawn/epub2.py:93-96 | writing the attributes of a table row always succeeds, with keys that are `ns` names of the row's attributes |
| `Epub2.WrittenAttrsAt` | dawn/epub2.py:93-96 | an attribute is written exactly when the value has a truthy entry under its local name, and it carries that entry |
| `Epub2.ReadWrittenAttr` | dawn/epub2.py:62-96 | `getxmlattr` reads back a written attribute, or None when it was not written |
| `Epub2.AttrsOfWritten` | dawn/epub2.py:62-96 | the attribute dict read from a written element is the truthy attributes of the value |
| `Epub2.RowElements` | dawn/epub2.py:86-97 | a falsy field writes nothing; a written row holds at most one element, tagged `dc:<tag>`; two or more values never succeed |
| `Epub2.RowOutput` | dawn/epub2.py:85-97 | a row writes at most one element with its tag |
| `Epub2.XmlRows` | dawn/epub2.py:85-97 | the table loop builds exactly `RowsElements` |
| `Epub2.XmlMeta` | dawn/epub2.py:75-99 | `_xml_meta` builds exactly `dc:format`, then the dates, then the rows |
| `Epub2.MetaTable` | dawn/epub2.py:39-56 | the table's rows have distinct tags and keys and list only table keys |
| `Epub2.MetaAttrs` | dawn/epub2.py:39-56 | no row writes `format` or `date` |
| `Epub2.MetaTags` | dawn/epub2.py:39-56 | no two rows of the EPUB 2 table share a tag |
| `Epub2.MetaKeys` | dawn/epub2.py:39-56 | no two rows of the EPUB 2 table share a dictionary key |
| `Epub2.SecondValueFails` | dawn/epub2.py:91-92 | a multi field with two text values fails on the second: writing the first rebinds `tag` to the written element, so `getattr(E['dc'], tag)` is given an element as the attribute name and raises TypeError before any call |
| `Epub2.ExtractWritten` | dawn/epub2.py:59-97 | a written value element extracts to the value with its truthy attributes |
| `Epub2.RowsAllOk` | dawn/epub2.py:85-97 | the rows succeed together when each does |
| `Epub2.RowsTagged` | dawn/epub2.py:85-97 | selecting a row's tag in the written rows gives exactly that row's output |
| `Epub2.RowsTaggedNone` | dawn/epub2.py:85-97 | a tag no row carries selects nothing of what the rows write |
| `Epub2.RowOutputOk` | dawn/epub2.py:85-97 | every writable row is written without error |
| `Epub2.RowReadBack` | dawn/epub2.py:57-97 | a written row reads back as its field with only the truthy attributes |
| `Epub2.MetadataTagged` | dawn/epub2.py:75-99 | in the written metadata, each row's tag selects exactly that row's elements |
| `Epub2.RowsRoundTrip` | dawn/epub2.py:57-99 | every row of writable metadata reads back under its key as written |
| `Epub2.MetaRoundTrip` | dawn/epub2.py:57-99 | writable metadata (text values, one value per list) is written, and every field reads back with its truthy attributes |
| `Epub2.UidRoundTrip` | dawn/epub2.py:50 | for a str uid, as the tests mock it, the synthesised uid survives an EPUB 2 write and read unchanged |
| `Epub2.XmlManifest2` | dawn/epub2.py:101-107 | the backing item is added, serialised with the rest, then deleted; a serialisation error leaves it added |
| `Epub2.ManifestRestored` | dawn/epub2.py:101-107 | after the add and delete, no entry is keyed by the backing item's iid; a manifest that did not hold it is restored exactly |
| `Epub2.TocItemListed` | dawn/epub2.py:101-107 | the serialised manifest includes the backing item |
| `Epub2.SpineElement2` | dawn/epub2.py:109-113 | the spine carries `toc` equal to the backing item's iid when there is one, and no attribute otherwise |
| `Epub2.XmlSpine2` | dawn/epub2.py:109-113 | `_xml_spine` builds exactly that element |
| `Epub2.WrittenTocId` | dawn/epub2.py:15-16 | a written package's spine names the backing item, as `_read_toc` looks for it |
| `Epub2.NavPointsOf` | dawn/epub2.py:119-124 | one navPoint per node, in order |
| `Epub2.WriteToc` | dawn/epub2.py:115-134 | synthesises `Item('__toc', 'toc.ncx')` when there is none, writes the NCX at the item's path, and adds the item to the manifest unless its id is already there |
| `Epub2.NavPointShape` | dawn/epub2.py:119-124 | a written navPoint has a label with the title, no `content`, and its children as nested navPoints |
| `Epub2.WrittenNcxReadBack` | dawn/epub2.py:126-131 | the written `docTitle` is `toc.title or ''`; a written NCX with entries reads back as an AttributeError, because it has no `content/src` |
| `Epub3.ReadToc` | dawn/epub3.py:15-25 | without `item[@properties="nav"]` under metadata nothing happens; with one, the pop with an element key is a KeyError |
| `Epub3.MetaKeyed` | dawn/epub3.py:36-53 | each row's key is its tag, plus `s` for a multi row |
| `Epub3.Refinements` | dawn/epub3.py:71 | the refinements are un-namespaced `meta` children whose `refine` is `#` and the id |
| `Epub3.Property` | dawn/epub3.py:72 | a refinement's `property`, or KeyError(None) when absent |
| `Epub3.Extract` | dawn/epub3.py:62-73 | an element without `id` extracts as in EPUB 2, and the value is always the text |
| `Epub3.ExtractWithId` | dawn/epub3.py:69-70 | an element with an id and no refinements gets `id` added to its attributes |
| `Epub3.RefineOk` | dawn/epub3.py:71-72 | the refinement fold keeps every earlier key and adds every property |
| `Epub3.RefineKeeps` | dawn/epub3.py:71-72 | a key no refinement names keeps its value |
| `Epub3.RefineLast` | dawn/epub3.py:71-72 | the last refinement of a property wins, with its text |
| `Epub3.RenameScheme` | dawn/epub3.py:80-81 | `identifier-type` moves to `scheme`; every other key and the value are untouched; without it the string is unchanged |
| `Epub3.RenameSchemes` | dawn/epub3.py:79-81 | every identifier is renamed, in order |
| `Epub3.ReadMeta` | dawn/epub3.py:59-86 | `_read_meta` computes exactly `ReadMetaSpec`: rows, rename, dates |
| `Epub3.RenameIdentifiers` | dawn/epub3.py:79-81 | the rename loop changes only the identifiers field |
| `Epub3.ReadDateTags` | dawn/epub3.py:83-86 | the first `dc:created`, `dc:date` and `dc:modified` feed creation, publication and modification |
| `Epub3.IndexedAttrs` | dawn/epub3.py:108 | every key of the attribute dict is `ns` of a table attribute |
| `Epub3.Attrib` | dawn/epub3.py:105-109 | lxml's builder accepts the attribute dict exactly when no value is None, and raises KeyError(NoneType) otherwise |
| `Epub3.ValueElement` | dawn/epub3.py:105-109 | a written value is a `dc:<tag>` element without children |
| `Epub3.RowElements` | dawn/epub3.py:99-109 | a falsy field writes nothing; written elements carry the row's tag |
| `Epub3.RowOutput` | dawn/epub3.py:98-109 | a row's elements carry its tag |
| `Epub3.RowsElementsTags` | dawn/epub3.py:98-109 | a tag no row has selects nothing in the written rows |
| `Epub3.XmlRows` | dawn/epub3.py:98-109 | the table loop builds exactly `RowsElements` |
| `Epub3.XmlMeta` | dawn/epub3.py:88-111 | `_xml_meta` builds exactly `dc:format`, the dates, then the rows |
| `Epub3.MissingLangFails` | dawn/epub3.py:108 | a title, description or publisher without `lang` is KeyError('lang') |
| `Epub3.ValueRoundTrip` | dawn/epub3.py:59-109 | a written value reads back with exactly the `lang` the row lists |
| `Epub3.UidLost` | dawn/epub3.py:38 | for a str uid, as the tests mock it, the identifier is written without `id` or `scheme`, so a re-read book finds no uid |
| `Epub3.FirstDate` | dawn/epub3.py:91-96 | the first date written, None exactly when no date is set |
| `Epub3.MetaTagsAvoid` | dawn/epub3.py:36-58 | no table row writes `created`, `date`, `modified` or an `opf:` tag |
| `Epub3.MetadataOfTagged` | dawn/epub.py:110-111 | in a metadata element opened by `dc:format`, any other tag that no row element carries selects only among the dates |
| `Epub3.MetadataDateTagged` | dawn/epub3.py:83-96 | in written metadata, `dc:date` selects the date elements and `created`/`modified` select nothing |
| `Epub3.RowsDateTagged` | dawn/epub3.py:83-111 | beside rows of other tags, `dc:date` selects exactly the written dates and `dc:created`/`dc:modified` select nothing |
| `Epub3.ReadDatesOnlyDate` | dawn/epub3.py:83-86 | with no `created` or `modified`, only publication is read, from the first `dc:date` |
| `Epub3.FirstDateElement` | dawn/epub3.py:91-96 | the first date element is the first date that is set |
| `Epub3.DatesReadBack` | dawn/epub3.py:83-96 | a written and re-read book keeps creation and modification as they were, and reads the first written date as publication |
| `Epub3.DatesReadBackOf` | dawn/epub3.py:83-96 | a metadata element whose only date children are the written ones reads the first of them as publication, as a timestamp, and keeps creation and modification |
| `Epub3.NavItemElement` | dawn/epub3.py:116-121 | the nav item has the backing item's id, href and `properties="nav"`, and fails with the builder's KeyError(NoneType) exactly when the iid or the mimetype is None |
| `Epub3.ManifestElement3` | dawn/epub3.py:113-122 | with a backing item, the nav item follows the ordinary items; without one the manifest is the base manifest |
| `Epub3.XmlManifest3` | dawn/epub3.py:113-122 | `_xml_manifest` builds exactly that element |
| `Epub3.NavItemListedTwice` | dawn/epub3.py:113-122 | a backing item also held in the manifest appears twice with the same id |
| `Epub3.MetadataHasNoItem` | dawn/epub3.py:88-111 | the written metadata holds no `opf:item` |
| `Epub3.RowsHaveNoItem` | dawn/epub3.py:88-111 | written rows and dates hold no `opf:item` |
| `Epub3.PackageSelect` | dawn/epub.py:81-86 | a path through the written package's `opf:metadata` selects within the metadata element |
| `Epub3.WrittenPackageHasNoNav` | dawn/epub3.py:15-18 | a package this writer produces takes the early-return branch of `_read_toc` |
| `Epub3.OlsOf` | dawn/epub3.py:128-133 | one `ol` per node, in order |
| `Epub3.WriteToc` | dawn/epub3.py:124-143 | synthesises `Item('__toc', 'toc.html')` when there is none, writes the navigation document at the item's path, and adds the item unless its id is already there |
| `Epub3.OlShape` | dawn/epub3.py:128-133 | each node is an `ol` with `a(title, href)` and a nested `ol` of its children |
| `Epub3.NavDocShape` | dawn/epub3.py:135-140 | the `h1` is `toc.title or ''`, and the entries are its top-level `ol`s |
| `Lifecycle.Table2Shapes` | dawn/epub2.py:39-56 | each EPUB 2 row's key holds a list exactly when the row is multi |
| `Lifecycle.Table3Shapes` | dawn/epub3.py:36-53 | each EPUB 3 row's key holds a list exactly when the row is multi |
| `Lifecycle.TableShapes` | dawn/epub.py:31-42 | either table lists each of its keys with the shape the initial dictionary gives it |
| `Lifecycle.WellShapedIsShaped` | dawn/epub.py:31-42 | well-shaped metadata fits both tables |
| `Lifecycle.InitialMetaWellShaped` | dawn/epub.py:31-42 | the initial dictionary is well-shaped |
| `Lifecycle.ReadRowsShaped` | dawn/epub2.py:67-69 | reading a table keeps the dictionary well-shaped and fills every row's key |
| `Lifecycle.Identifiers` | dawn/epub.py:51 | `meta['identifiers']` is the list, or KeyError when it is absent |
| `Lifecycle.ReadMetaShaped` | dawn/epub.py:48-51 | after `_read_meta` of either dialect the dictionary is well-shaped and `identifiers` is a list, so the uid filter runs |
| `Lifecycle.ReadMeta2Shaped` | dawn/epub2.py:57-73 | the EPUB 2 `_read_meta` keeps well-shaped metadata well-shaped and leaves `identifiers` a list |
| `Lifecycle.ReadMeta3Shaped` | dawn/epub3.py:59-86 | the EPUB 3 `_read_meta`, rename included, keeps well-shaped metadata well-shaped and leaves `identifiers` a list |
| `Lifecycle.Table2Identifiers` | dawn/epub2.py:50 | the EPUB 2 table keeps identifiers in its seventh row, a multi row |
| `Lifecycle.Table3Identifiers` | dawn/epub3.py:38 | the EPUB 3 table keeps identifiers in its first row, a multi row |
| `Lifecycle.TableRowsShaped` | dawn/epub2.py:67-69 | reading a table whose rows have their shapes leaves a list under each multi row's key |
| `Lifecycle.RenamedShaped` | dawn/epub3.py:79-81 | the scheme rename keeps the dictionary well-shaped |
| `Lifecycle.PackageFor` | dawn/epub.py:81-86 | the package is built exactly when uid has an `id` and metadata, manifest and spine are all built; a None uid is TypeError and one without `id` KeyError('id'), both before the parts; an `id` of None, once the parts are built, is the builder's KeyError(NoneType) |
| `Lifecycle.PackageNamesDialect` | dawn/epub.py:82 | a written package's `version` finds its own class in `VERSIONS`, and its `unique-identifier` is the uid's id |
| `Lifecycle.FreshMeta` | dawn/epub.py:53-57 | after `_init_write` the identifiers are `[uid]`, every other field is as initialised, and the dictionary is well-shaped |
| `Lifecycle.IdentifierRows` | dawn/epub.py:53-57 | only the identifier row of either table is keyed `identifiers`, and EPUB 3 lists no attribute for it |
| `Lifecycle.Rows3AllOk` | dawn/epub3.py:98-109 | EPUB 3 rows that each write without failing write together |
| `Lifecycle.FreshMetaWritten` | dawn/epub.py:75-83 | for a str uid, as the tests mock it, the metadata of a fresh book is written without error in either dialect |
| `Lifecycle.FreshPackageBuilt` | dawn/epub.py:75-87 | for a str uid, as the tests mock it, a fresh, empty book closes: its package is built in either dialect |
| `Lifecycle.Rows2UidFails` | dawn/epub2.py:85-92 | EPUB 2 rows that reach the identifier row fail with TypeError in `str(astr)` when the uid's value is not a str and nothing before it is truthy |
| `Lifecycle.Rows3UidFails` | dawn/epub3.py:98-106 | the same for the EPUB 3 rows |
| `Lifecycle.UuidMetaFails` | dawn/epub.py:54 | with the UUID object `uuid.uuid4()` returns as the uid's value, the fresh book's metadata fails with TypeError in either dialect, because `AttributedString.__str__` returns the object itself |
| `Lifecycle.UuidPackageFails` | dawn/epub.py:54 | hence such a book builds no package: `_write_opf` raises TypeError |
| `Lifecycle.Document.constructor` | dawn/epub.py:24-42 | a new document has an empty manifest, spine and toc, the initial metadata, and no uid |
| `Lifecycle.Document.ReadTocStep` | dawn/epub.py:47 | `_read_toc` of the document's dialect; after a read that succeeds the TOC is `TocFrom` the OPF: unchanged for EPUB 3, and for EPUB 2 with an NCX, its item popped into `toc.item`, its navPoints appended and its `docTitle` taken; the result is `TocOutcome`: EPUB 3 fails exactly on a nav item, EPUB 2 on the first of a bad `toc` lookup, a missing NCX item, an unparsable NCX, a bad navPoint |
| `Lifecycle.Document.ReadMetaStep` | dawn/epub.py:48 | `_read_meta` of the document's dialect |
| `Lifecycle.Document.ReadStructure` | dawn/epub.py:45-47 | manifest, then spine, then toc, each on the result of the last, with the manifest, spine and TOC each reads leaves; EPUB 3 always leaves the TOC unchanged; the result is `StructureOutcome`: the first error of the manifest, spine and TOC reads, Ok when none fails |
| `Lifecycle.Document.ReadMetadata` | dawn/epub.py:48-51 | metadata is read, then uid is the first identifier whose id is `unique-identifier`; it succeeds exactly when `_read_meta` does, and otherwise returns `_read_meta`'s error |
| `Lifecycle.Document.InitRead` | dawn/epub.py:44-51 | `_init_read` leaves the manifest, spine, TOC (`TocFrom`), metadata and uid that reading the package gives, in that order; EPUB 3 always leaves the TOC unchanged; the result is `InitReadOutcome`: the structure's error, else `_read_meta`'s, Ok when neither fails |
| `Lifecycle.Document.InitWrite` | dawn/epub.py:53-73 | uid has `id='uid_id'` and `scheme='uuid'`, identifiers are `[uid]`, and `mimetype` then the container are written |
| `Lifecycle.Document.WriteTocStep` | dawn/epub.py:78-79 | the TOC is written only when it has entries, with the dialect's default item when there is none |
| `Lifecycle.Document.MetadataStep` | dawn/epub.py:83 | `_xml_meta` of the dialect |
| `Lifecycle.Document.ManifestStep` | dawn/epub.py:84 | `_xml_manifest` of the dialect, and the manifest it leaves (`ManifestLeft`): EPUB 2 with a TOC item removes it again after a successful serialisation and keeps it after a failed one; otherwise unchanged |
| `Lifecycle.Document.SpineStep` | dawn/epub.py:85 | `_xml_spine` of the dialect |
| `Lifecycle.Document.PackageStep` | dawn/epub.py:81-86 | the package is `PackageFor` of the current state; the manifest is `PackageManifest`: what `_xml_manifest` leaves when it is reached, unchanged otherwise |
| `Lifecycle.Document.WritePackage` | dawn/epub.py:81-87 | a built package is written to the OPF path; on an error nothing is written; the manifest is `PackageManifest` |
| `Lifecycle.Document.WriteOpf` | dawn/epub.py:75-87 | the modification date is set, the TOC is written when it has entries, then the package is written; the result is that of building the package, and the manifest is `PackageManifest` of the manifest `_write_toc` left |
| `Lifecycle.WrittenManifest2` | dawn/epub2.py:101-107 | after an EPUB 2 write that registered the NCX item and succeeded, the manifest is the one before the write less the entry keyed by the item's id |
| `Lifecycle.Validate` | dawn/open.py:10-15 | the arguments pass exactly for mode `r` without opfpath or mode `w` with a version; every failure is TypeError |
| `Lifecycle.Locate` | dawn/open.py:26-32 | a located package is the parsed archive member at the returned OPF path |
| `Lifecycle.LocateWritten` | dawn/open.py:26-32 | in an archive holding a written container and package, `__enter__` finds that package |
| `Lifecycle.ReopenedDialect` | dawn/open.py:26-36 | a written book reopened without a version dispatches to the dialect that wrote it |
| `Lifecycle.Opener.constructor` | dawn/open.py:8-20 | validated arguments are stored and the archive is opened |
| `Lifecycle.Opener.EnterRead` | dawn/open.py:25-37 | the container, then the package; a caller's version overrides the package's; `VERSIONS` failures are KeyError; the document is returned after `_init_read`, holding what `ReadFrom` states (its manifest, spine, TOC, metadata and uid); it succeeds exactly when `EnterReadOutcome` is Ok, and otherwise returns its error: container, package, version, then `_init_read` |
| `Lifecycle.Opener.ReadDocument` | dawn/open.py:36-37 | the document is recorded in `_epub` before `_init_read`, and on success holds what `ReadFrom` states; it succeeds exactly when `InitReadOutcome` of a fresh document is Ok, and otherwise returns that error |
| `Lifecycle.Opener.EnterWrite` | dawn/open.py:39-43 | the OPF path defaults to `content.opf`; an unregistered version is KeyError and writes nothing; the document is returned after `_init_write` |
| `Lifecycle.Opener.Enter` | dawn/open.py:22-45 | dispatch on mode; a used opener (its `_zf` deleted) is AttributeError; a read returns a document holding what `ReadFrom` states, TOC included, and succeeds exactly when `EnterReadOutcome` is Ok, returning its error otherwise |
| `Lifecycle.Opener.Exit` | dawn/open.py:47-52 | `_write_opf` runs only in w mode, and its error stops the exit before closing; otherwise the archive closes and `_epub` and `_zf` are gone |
| `Lifecycle.Open` | dawn/open.py:8-20 | an argument error is TypeError before any archive exists; otherwise a fresh opener on a fresh archive (empty in w mode) |
| `Monolith.LiftAll` | dawn/__init__.py:245-256 | each node becomes a monolith node, in order |
| `Monolith.UnliftAll` | dawn/__init__.py:245-256 | forgets the list titles, node by node |
| `Monolith.LiftUnlift` | dawn/__init__.py:250-256 | a node built by `append` has every children list untitled, and is the split node once list titles are forgotten |
| `Monolith.UnliftLift` | dawn/__init__.py:250-256 | an untitled monolith tree is exactly the lift of its split tree |
| `Monolith.LiftAllConcat` | dawn/__init__.py:267 | lifting distributes over concatenation |
| `Monolith.AppendSpec` | dawn/__init__.py:258-268 | `Toc.append` of a str succeeds exactly on accepted arguments; failures are TypeError; the node has the href and title, one child per tuple, untitled lists, and is the split node |
| `Monolith.MonoToc.constructor` | dawn/__init__.py:255-256 | `Toc()` starts untitled and empty |
| `Monolith.MonoToc.Append` | dawn/__init__.py:258-268 | appends the lifted node at the end, or leaves the list unchanged on an error |
| `Monolith.AppendNavPoints` | dawn/__init__.py:303-304 | the toc gains the lifted NCX nodes in order, or fails as the split reader does |
| `Monolith.StrAgrees` | dawn/__init__.py:271-277 | `str(astr)` is the text where the split `__str__` is defined; for None it is `'None'`, where the split one raises |
| `Monolith.TruthDiffers` | dawn/__init__.py:271-277 | truth is the attribute count (UserDict first): a non-empty text without attributes is false, and an empty text with one is true |
| `Monolith.IndexedAttrsOk` | dawn/__init__.py:365 | indexing every table attribute succeeds exactly when each has a known prefix and is present; every failure is a KeyError |
| `Monolith.IndexedAttrsKey` | dawn/__init__.py:365 | each table attribute is written under its `ns` name |
| `Monolith.IndexedAttrsValues` | dawn/__init__.py:365 | each written value is the value of the attribute some key names |
| `Monolith.SameNsSameLocal` | dawn/__init__.py:558-563 | two table keys with the same `ns` name read the same attribute |
| `Monolith.MonoValueElement` | dawn/__init__.py:363-366 | `dc:<tag>` with text `str(astr)` and no children; for a text value it is the EPUB 3 element |
| `Monolith.ValueElementOk` | dawn/__init__.py:363-366 | a value is written exactly when it has every attribute of the row, none None |
| `Monolith.ValueElementErrors` | dawn/__init__.py:365 | a missing attribute is a KeyError; a None attribute is the builder's KeyError(NoneType) |
| `Monolith.ValueElementAttrs` | dawn/__init__.py:365 | a written element carries every listed attribute |
| `Monolith.Todo` | dawn/__init__.py:357-361 | a list field is its values, and a single field is wrapped in a list |
| `Monolith.MonoRowElements` | dawn/__init__.py:356-366 | a field false by attribute count writes nothing; otherwise one element per value, in order, Ok exactly when each value is written |
| `Monolith.EveryValueWritten` | dawn/__init__.py:362-366 | unlike the split EPUB 2 writer, every value of a multi field is written, each with its own text |
| `Monolith.BareValueSkipped` | dawn/__init__.py:357-359 | a description, publisher or source without attributes is never written |
| `Monolith.XmlMeta` | dawn/__init__.py:346-368 | `_xml_meta` builds exactly `dc:format`, the dates, then the rows, written this way |
| `Monolith.MonoItemElement` | dawn/__init__.py:159-163 | `media-type` is always set, so an unknown mimetype, like a missing iid, is the builder's KeyError(NoneType); otherwise the split item element |
| `Monolith.MonoManifestElement` | dawn/__init__.py:157-165 | Ok exactly when every item has an iid and a mimetype; then the split manifest element |
| `Monolith.MonoXmlManifest` | dawn/__init__.py:370-376 | `_xml_manifest` of either dialect always fails, with AttributeError on the missing `toc.item` (after the items for EPUB 3) |
| `Monolith.MonoSpine2` | dawn/__init__.py:378-381 | `_xml_spine` returns None even when it succeeds; it needs `_toc_item` with an iid, so a book without an NCX item fails |
| `Monolith.TitleOrDefault` | dawn/__init__.py:394 | `toc.title or 'Table of contents'`: never empty, the title when given |
| `Monolith.MonoNcxReadBack` | dawn/__init__.py:383-398 | the written NCX is the split one with the default title, and reads back that title |
| `Monolith.MonoDocument.constructor` | dawn/__init__.py:69-87 | a new document is empty, with untitled toc and no `_toc_item` |
| `Monolith.MonoDocument.ReadToc` | dawn/__init__.py:286-308 | the item named by the spine is popped into `_toc_item`, the NCX nodes are lifted into the toc, and `docTitle` becomes its title; with the item present, it succeeds exactly when the NCX parses and every navPoint expands, and otherwise returns the parse error or the first navPoint error |
| `Monolith.MonoDocument.LoadNcx` | dawn/__init__.py:300-308 | appends the lifted NCX nodes and sets the title; it succeeds exactly when the NCX member parses and every navPoint expands, and otherwise returns the open or parse error, then the first navPoint error |
| `Monolith.MonoDocument.WriteNcx` | dawn/__init__.py:383-398 | writes the NCX to `_toc_item`'s path and registers the item |
| `Monolith.MonoDocument.WriteOpf` | dawn/__init__.py:120-131 | always fails: AttributeError without `_toc_item` (every written book) or for EPUB 3; after writing the NCX of a read EPUB 2 book, the package's first error |

## Left out

- Serialisation and parsing (`lxml.etree.tostring`, `parse`): archive
  members hold element trees, not bytes. `strptime` and `strftime` are not
  modelled: a date is its format and text, and the written timestamp is
  `Utils.Stamp`.
- `mimetypes.guess_type`, `uuid.uuid4` and `datetime.now` are parameters
  (`guess`, the uid value, `now`).
- ZIP internals: compression, `ZipInfo`, and the `NotImplementedError` of
  `write` and of `writestr` with a `ZipInfo`. `Zip.Archive` is a member
  map plus a write log.
- `Zip.Archive.Read`: the KeyError for a missing member carries the name.
  zipfile's KeyError carries the message "There is no item named ... in
  the archive" instead.
- `posixpath.join` and `dirname` are simplified: no normalisation of `..`
  or repeated slashes.
- Aliasing of `AttributedString` objects: `_init_write` puts the uid object
  itself into `identifiers`, and the model copies the value. Later changes
  to one are not seen in the other.
- Partial state after an exception: where the source has already mutated
  the document before raising, the contracts state the result and the
  state changes that always happen, but not every partial change.
- The EPUB 3 `_read_toc` after a nav item is found: the pop with an element
  key stops it (`Epub3.ReadToc`). The undefined `np` after that point is
  never reached.
- `Lifecycle.PackageFor`, `Lifecycle.Document.WriteOpf` and the metadata
  writers `requires WellShaped(meta)`: every key the tables use holds a
  list exactly for multi rows. A user who stores a single string under a
  list key makes the source iterate as it pleases, and that is not
  modelled.
- Each metadata row stores its dictionary key explicitly; the source
  computes it as `tag + ('s' if multi else '')` (`Epub2.MetaKeyed`,
  `Epub3.MetaKeyed`).
- `Monolith.MonoToc.Append`: an existing `Toc.Item` argument has untitled
  children lists. A node carrying a titled children list cannot be passed.
- `Monolith.MonoDocument`: the EPUB 3 `_read_toc`, `_read_meta` and `_init_*`
  of the monolith are the split text and are modelled by `Lifecycle`. Only
  the EPUB 2 TOC reader is modelled on the monolith's own TOC.
- `Monolith.MonoXmlManifest`: the EPUB 3 `_write_toc` of the monolith
  (dawn/__init__.py:513-531) reads `self.toc.item`, which its `Toc` does
  not have. Its AttributeError is modelled through the manifest writer that
  follows; the navigation document it would write is not modelled.
- `Monolith.MonoXmlManifest`: for EPUB 3, when an item's mimetype is None
  the error raised is the builder's KeyError(NoneType), not the
  AttributeError; the contract
  states only that the result is an error.
- `__repr__`: cosmetic.
- The top-level `dawn.py`, the tests and `setup.py` are not part of this
  model.
- `_write_opf` writes the TOC only when `self.toc` has entries
  (dawn/epub.py:78), whatever `toc.item` holds.
- `__exit__` leaves the archive open when `_write_opf` raises
  (dawn/open.py:47-50).
- `Utils.ParseDate`: the `ValueError` of `strptime` on a text of a known
  length that does not match the format (`"20xx"`, `"2019-13"`) is not
  modelled; such a text is kept as a date of that format.
- `Epub2.RowReadBack`, `Epub2.RowsRoundTrip`, `Epub2.MetaRoundTrip`: the
  write and the read meet on the element tree, and `tostring` followed by
  `parse` is taken as the identity. lxml reads an element written with the
  empty text back with text None, so a value whose text is `''` reads back
  as None, not as `''`.
- `Epub3.ValueRoundTrip`: the same; an empty text reads back as None.
- `Epub2.WrittenNcxReadBack`: the same; a title of None or `''` is written
  as `''` and read back as None, not as `''`.
- `Epub.LookupVersion`: the model takes dawn/epub2.py and dawn/epub3.py as
  imported, so `VERSIONS` holds `2.0` and `3.0`. The registry fills only
  through `__init_subclass__` (dawn/epub.py:15-22) when those modules are
  imported. dawn/open.py imports only `.epub` and `.utils` (dawn/open.py:4-5),
  so nothing in these files makes that import happen. `Epub.VERSIONS`,
  `Epub.VersionsRegistry`, `Lifecycle.ReopenedDialect`,
  `Lifecycle.PackageNamesDialect` and `Lifecycle.Opener.EnterWrite` rely on
  the same assumption.
- `Epub3.Refinements`: the id is put into the ElementPath query
  `meta/[@refine="#<id>"]` as it is (dawn/epub3.py:71). An id that
  contains `"` makes that query invalid, and lxml raises SyntaxError. The
  model matches such an id literally and does not model that error.

## Findings

| source | as written | input that shows it | evidently intended | confidence | as-written member | corrected member |
|---|---|---|---|---|---|---|
| dawn/__init__.py:120-131 | `_write_opf` reads `self._toc_item`, which only `Epub20._read_toc` assigns, and `_xml_manifest` reads `self.toc.item`, which the monolith's `Toc` lacks | `open(out, mode='w', version='2.0')` then leaving the `with` block, as tests/test_write.py:36 does: AttributeError on `_toc_item` | closing a written book writes its package | not executed | `Monolith.MonoDocument.WriteOpf` | `Lifecycle.Document.WriteOpf` (with `Lifecycle.FreshPackageBuilt`: a fresh book with a str uid builds its package) |
| dawn/epub.py:54 | `_init_write` stores the `uuid.UUID` object itself as the uid's value, and `AttributedString.__str__` (dawn/epub.py:239-240) returns it unchanged, so `str(astr)` on the identifier (dawn/epub2.py:92, dawn/epub3.py:106) raises TypeError | `open(out, mode='w', version='2.0')` then leaving the `with` block, with `uuid.uuid4` not replaced: TypeError in `_xml_meta` | the uid's value is the str of the UUID (as tests/test_write.py mocks it), and the package is built | not executed | `Lifecycle.UuidPackageFails` (with `Lifecycle.UuidMetaFails`) | `Lifecycle.FreshPackageBuilt` (with `Lifecycle.FreshMetaWritten`) |
