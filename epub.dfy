/** The version-independent document model of dawn/epub.py: the manifest,
    the spine, the table of contents, attributed strings, the metadata map,
    uid selection and synthesis, the manifest and spine serialisers and the
    version registry. */
module Epub {
  import opened Wrappers
  import opened Xml
  import opened Utils
  import opened Zip

  // ---------------------------------------------------------------- items

  /** A manifest key or item id. Python keys the manifest by whatever
      `getxmlattr` returned, so a manifest `item` without an `id` is keyed None. */
  type Key = Option<string>

  /** `Manifest.Item`. */
  datatype Item = Item(iid: Key, href: string)

  const XHTML_TYPE := "application/xhtml+xml"

  predicate EndsWith(s: string, suffix: string)
  {
    |suffix| <= |s| && s[|s| - |suffix|..] == suffix
  }

  /** `Item.mimetype`: the html/htm override, otherwise the guess of the
      `mimetypes` module, which the model takes as the parameter `guess`. */
  function Mimetype(it: Item, guess: string -> Option<string>): (r: Option<string>)
    ensures EndsWith(it.href, ".html") || EndsWith(it.href, ".htm") ==> r == Some(XHTML_TYPE)
    ensures !EndsWith(it.href, ".html") && !EndsWith(it.href, ".htm") ==> r == guess(it.href)
  {
    if EndsWith(it.href, ".html") || EndsWith(it.href, ".htm") then Some(XHTML_TYPE)
    else guess(it.href)
  }

  /** A Python value handed to one of the type-checking containers. */
  datatype Arg =
    | Str(s: string)
    | ManifestItem(item: Item)
    | TocItem(node: TocNode)
    | OtherObject

  // ------------------------------------------------- decimal item numbers

  function DigitChar(d: nat): char
    requires d < 10
  {
    ('0' as int + d) as char
  }

  /** `'{}'.format(n)` for a natural number. */
  function Decimal(n: nat): (s: string)
    ensures |s| > 0
  {
    if n < 10 then [DigitChar(n)] else Decimal(n / 10) + [DigitChar(n % 10)]
  }

  predicate IsDigits(s: string)
  {
    forall i :: 0 <= i < |s| ==> '0' <= s[i] <= '9'
  }

  function ParseDecimal(s: string): nat
    requires IsDigits(s)
    decreases |s|
  {
    if s == [] then 0
    else 10 * ParseDecimal(s[..|s| - 1]) + ((s[|s| - 1] as int) - ('0' as int))
  }

  /** The decimal rendering can be read back, so it is injective. */
  lemma {:induction false} DecimalRoundTrip(n: nat)
    ensures IsDigits(Decimal(n))
    ensures ParseDecimal(Decimal(n)) == n
  {
    if n >= 10 {
      DecimalRoundTrip(n / 10);
      var s := Decimal(n);
      assert s[..|s| - 1] == Decimal(n / 10);
    }
  }

  /** The id `Manifest.add` synthesises: `'item-{}'.format(len(self))`. */
  function ItemId(n: nat): string
  {
    "item-" + Decimal(n)
  }

  lemma ItemIdInjective(i: nat, j: nat)
    ensures ItemId(i) == ItemId(j) <==> i == j
  {
    if ItemId(i) == ItemId(j) {
      assert Decimal(i) == ItemId(i)[5..];
      assert Decimal(j) == ItemId(j)[5..];
      DecimalRoundTrip(i);
      DecimalRoundTrip(j);
    }
  }

  // ------------------------------------------------------ manifest entries

  /** The manifest dict: (key, item) pairs in insertion order. */
  type Entries = seq<(Key, Item)>

  predicate DistinctKeys(es: Entries)
  {
    forall i, j :: 0 <= i < j < |es| ==> es[i].0 != es[j].0
  }

  /** Where key `k` sits in the dict, if anywhere. */
  function Position(es: Entries, k: Key): (r: Option<nat>)
    ensures r.Some? ==> r.value < |es| && es[r.value].0 == k
    ensures r.Some? ==> forall j :: 0 <= j < r.value ==> es[j].0 != k
    ensures r.None? <==> forall j :: 0 <= j < |es| ==> es[j].0 != k
    decreases |es|
  {
    if es == [] then None
    else if es[0].0 == k then Some(0)
    else
      match Position(es[1..], k)
      case None => None
      case Some(i) => Some(i + 1)
  }

  predicate HasKey(es: Entries, k: Key)
  {
    Position(es, k).Some?
  }

  /** `dict.__setitem__`: an existing key keeps its place, a new key goes last. */
  function Store(es: Entries, k: Key, v: Item): (r: Entries)
    ensures HasKey(r, k)
    ensures HasKey(es, k) ==> |r| == |es| && r == es[Position(es, k).value := (k, v)]
    ensures !HasKey(es, k) ==> r == es + [(k, v)]
    ensures DistinctKeys(es) ==> DistinctKeys(r)
  {
    match Position(es, k)
    case Some(i) =>
      var r := es[i := (k, v)];
      assert r[i].0 == k;
      r
    case None =>
      var r := es + [(k, v)];
      assert r[|es|].0 == k;
      r
  }

  /** `dict.pop` / `del` of a present key. */
  function Remove(es: Entries, k: Key): (r: Entries)
    ensures !HasKey(es, k) ==> r == es
    ensures HasKey(es, k) ==>
      |r| == |es| - 1 && r == es[..Position(es, k).value] + es[Position(es, k).value + 1..]
    ensures DistinctKeys(es) ==> DistinctKeys(r) && !HasKey(r, k)
  {
    match Position(es, k)
    case None => es
    case Some(i) =>
      var r := es[..i] + es[i + 1..];
      assert forall j :: 0 <= j < |r| ==> r[j] == (if j < i then es[j] else es[j + 1]);
      r
  }

  /** `manifest[k]`. */
  function Lookup(es: Entries, k: Key): (r: Result<Item>)
    ensures r.Ok? <==> HasKey(es, k)
    ensures r.Ok? ==> r.value == es[Position(es, k).value].1
    ensures r.Err? ==> r.error == KeyError(k)
  {
    match Position(es, k)
    case None => Err(KeyError(k))
    case Some(i) => Ok(es[i].1)
  }

  /** `manifest.values()`, in insertion order. */
  function Values(es: Entries): (r: seq<Item>)
    ensures |r| == |es| && forall i :: 0 <= i < |es| ==> r[i] == es[i].1
  {
    seq(|es|, i requires 0 <= i < |es| => es[i].1)
  }

  /** `manifest.add(h)` on a bare href: the new id counts the entries before the call. */
  function AddHref(es: Entries, h: string): Entries
  {
    var k := Some(ItemId(|es|));
    Store(es, k, Item(k, h))
  }

  /** N successive `add(h)` calls. */
  function AddAll(es: Entries, hrefs: seq<string>): Entries
    decreases |hrefs|
  {
    if hrefs == [] then es else AddAll(AddHref(es, hrefs[0]), hrefs[1..])
  }

  /** The manifest N adds build from an empty one. */
  predicate NumberedFrom(es: Entries, hrefs: seq<string>)
  {
    |es| == |hrefs| &&
    forall i :: 0 <= i < |es| ==> es[i] == (Some(ItemId(i)), Item(Some(ItemId(i)), hrefs[i]))
  }

  /** From an empty manifest, N adds give item-0 .. item-(N-1), in order,
      pairwise distinct, and N entries. */
  lemma AddAllFromEmpty(hrefs: seq<string>)
    ensures NumberedFrom(AddAll([], hrefs), hrefs)
    ensures DistinctKeys(AddAll([], hrefs))
  {
    AddAllNumbered([], [], hrefs);
  }

  lemma {:induction false} AddAllNumbered(es: Entries, done: seq<string>, todo: seq<string>)
    requires NumberedFrom(es, done)
    ensures NumberedFrom(AddAll(es, todo), done + todo)
    ensures DistinctKeys(AddAll(es, todo))
    decreases |todo|
  {
    NumberedDistinct(es, done);
    if todo == [] {
      assert done + todo == done;
    } else {
      var k := Some(ItemId(|es|));
      forall j | 0 <= j < |es|
        ensures es[j].0 != k
      {
        ItemIdInjective(j, |es|);
      }
      var es' := AddHref(es, todo[0]);
      assert es' == es + [(k, Item(k, todo[0]))];
      assert NumberedFrom(es', done + [todo[0]]);
      AddAllNumbered(es', done + [todo[0]], todo[1..]);
      assert done + [todo[0]] + todo[1..] == done + todo;
    }
  }

  lemma NumberedDistinct(es: Entries, hrefs: seq<string>)
    requires NumberedFrom(es, hrefs)
    ensures DistinctKeys(es)
  {
    forall i, j | 0 <= i < j < |es|
      ensures es[i].0 != es[j].0
    {
      ItemIdInjective(i, j);
    }
  }

  /** `add` does not look for a free id: it always takes `item-<len>`. After
      N adds and the removal of item-k, the next add takes item-(N-1); unless
      k was that last one, item-(N-1) is still in use and its entry is
      silently replaced, so the manifest does not grow. Otherwise (or when
      item-k was never there) the new entry goes last. */
  lemma AddAfterRemovalOverwrites(hs: seq<string>, k: nat, h: string)
    ensures var rest := Remove(AddAll([], hs), Some(ItemId(k)));
      var n := |hs|;
      k < n - 1 ==>
        |rest| == n - 1 &&
        AddHref(rest, h) == rest[n - 2 := (Some(ItemId(n - 1)), Item(Some(ItemId(n - 1)), h))]
    ensures var rest := Remove(AddAll([], hs), Some(ItemId(k)));
      k >= |hs| - 1 ==>
        AddHref(rest, h) == rest + [(Some(ItemId(|rest|)), Item(Some(ItemId(|rest|)), h))]
  {
    AddAllFromEmpty(hs);
    var es := AddAll([], hs);
    var n := |hs|;
    var rest := Remove(es, Some(ItemId(k)));
    NumberedPosition(es, hs, k);
    if k < n - 1 {
      assert rest == es[..k] + es[k + 1..] && |rest| == n - 1;
      assert rest[n - 2] == es[n - 1];
      AddOverwrites(rest, h);
    } else {
      var pre := if k < n then hs[..n - 1] else hs;
      assert rest == es[..|pre|];
      assert NumberedFrom(rest, pre);
      AddAppends(rest, pre, h);
    }
  }

  /** With distinct keys and `item-<len>` on the last entry, `add`
      overwrites that entry. */
  lemma AddOverwrites(rest: Entries, h: string)
    requires DistinctKeys(rest) && |rest| > 0 && rest[|rest| - 1].0 == Some(ItemId(|rest|))
    ensures AddHref(rest, h) == rest[|rest| - 1 := (Some(ItemId(|rest|)), Item(Some(ItemId(|rest|)), h))]
  {
    assert Position(rest, Some(ItemId(|rest|))) == Some(|rest| - 1);
  }

  /** On a numbered manifest `add` appends a new entry. */
  lemma AddAppends(rest: Entries, pre: seq<string>, h: string)
    requires NumberedFrom(rest, pre)
    ensures AddHref(rest, h) == rest + [(Some(ItemId(|rest|)), Item(Some(ItemId(|rest|)), h))]
  {
    NumberedPosition(rest, pre, |rest|);
  }

  /** In a numbered manifest, item-k sits at index k, or nowhere past the end. */
  lemma NumberedPosition(es: Entries, hs: seq<string>, k: nat)
    requires NumberedFrom(es, hs)
    ensures k < |es| ==> Position(es, Some(ItemId(k))) == Some(k)
    ensures k >= |es| ==> !HasKey(es, Some(ItemId(k)))
  {
    forall j | 0 <= j < |es| && j != k
      ensures es[j].0 != Some(ItemId(k))
    {
      ItemIdInjective(j, k);
    }
    if k < |es| {
      assert es[k].0 == Some(ItemId(k));
    }
  }

  /** `Manifest.byhref`: the href is cut at its first '#'. */
  function BaseHref(h: string): (r: string)
    ensures '#' !in r
    ensures '#' !in h ==> r == h
  {
    if '#' in h then h[..IndexOf(h, '#')] else h
  }

  /** The first item, in insertion order, whose href is `base`. */
  function FirstWithHref(vs: seq<Item>, base: string): (r: Option<nat>)
    ensures r.Some? ==> r.value < |vs| && vs[r.value].href == base
    ensures r.Some? ==> forall j :: 0 <= j < r.value ==> vs[j].href != base
    ensures r.None? <==> forall j :: 0 <= j < |vs| ==> vs[j].href != base
    decreases |vs|
  {
    if vs == [] then None
    else if vs[0].href == base then Some(0)
    else
      match FirstWithHref(vs[1..], base)
      case None => None
      case Some(i) => Some(i + 1)
  }

  /** `manifest.byhref(h)`: the first item whose href equals `h` cut at its
      first '#', or KeyError of that cut href. */
  function ByHref(es: Entries, h: string): (r: Result<Item>)
    ensures r.Ok? ==> r.value.href == BaseHref(h)
    ensures r.Ok? ==>
      exists i :: 0 <= i < |es| && es[i].1 == r.value && (forall j :: 0 <= j < i ==> es[j].1.href != BaseHref(h))
    ensures r.Err? <==> forall j :: 0 <= j < |es| ==> es[j].1.href != BaseHref(h)
    ensures r.Err? ==> r.error == KeyError(Some(BaseHref(h)))
  {
    var vs := Values(es);
    match FirstWithHref(vs, BaseHref(h))
    case None => Err(KeyError(Some(BaseHref(h))))
    case Some(i) => Ok(vs[i])
  }

  /** The lookup ignores the fragment: `byhref(h) == byhref(h + '#' + f)`. */
  lemma ByHrefIgnoresFragment(es: Entries, h: string, f: string)
    requires '#' !in h
    ensures ByHref(es, h + "#" + f) == ByHref(es, h)
  {
    var g := h + "#" + f;
    assert g[|h|] == '#';
    assert g[..|h|] == h;
    var i := IndexOf(g, '#');
    assert i == |h|;
  }

  // ------------------------------------------------------------- manifest

  /** The argument of `Manifest.add`: a bare href or an existing item. */
  datatype AddArg = Href(href: string) | Existing(item: Item)

  /** `Manifest.__setitem__(k, v)`: a str is wrapped as `Item(k, v)`, an item
      is stored as it is, anything else is a TypeError. */
  function SetEntry(es: Entries, k: Key, v: Arg): (r: Result<Entries>)
    ensures r.Ok? <==> v.Str? || v.ManifestItem?
    ensures v.Str? ==> r == Ok(Store(es, k, Item(k, v.s)))
    ensures v.ManifestItem? ==> r == Ok(Store(es, k, v.item))
    ensures r.Err? ==> r.error == TypeError
  {
    match v
    case Str(h) => Ok(Store(es, k, Item(k, h)))
    case ManifestItem(it) => Ok(Store(es, k, it))
    case _ => Err(TypeError)
  }

  /** `Manifest`: a dict from key to item that keeps insertion order. */
  class Manifest {
    var entries: Entries

    ghost predicate Valid()
      reads this
    {
      DistinctKeys(entries)
    }

    constructor ()
      ensures Valid() && entries == []
    {
      entries := [];
    }

    /** `add(item)`: a bare href gets the id `item-<len before the call>`;
        the item is stored under its id, replacing any entry with that key. */
    method Add(arg: AddArg) returns (item: Item)
      requires Valid()
      modifies this
      ensures Valid()
      ensures item == (match arg
        case Href(h) => Item(Some(ItemId(|old(entries)|)), h)
        case Existing(it) => it)
      ensures entries == Store(old(entries), item.iid, item)
    {
      match arg {
        case Href(h) => item := Item(Some(ItemId(|entries|)), h);
        case Existing(it) => item := it;
      }
      entries := Store(entries, item.iid, item);
    }

    /** `self[k] = v`, type-checked; a TypeError leaves the manifest unchanged. */
    method SetItem(k: Key, v: Arg) returns (r: Result<()>)
      requires Valid()
      modifies this
      ensures Valid()
      ensures r.Ok? <==> SetEntry(old(entries), k, v).Ok?
      ensures r.Ok? ==> entries == SetEntry(old(entries), k, v).value
      ensures r.Err? ==> r.error == TypeError && entries == old(entries)
    {
      match SetEntry(entries, k, v)
      case Err(e) => r := Err(e);
      case Ok(es) => entries := es; r := Ok(());
    }

    /** `dict.pop(k)`: KeyError(k) when absent. */
    method Pop(k: Key) returns (r: Result<Item>)
      requires Valid()
      modifies this
      ensures Valid()
      ensures r == Lookup(old(entries), k)
      ensures entries == Remove(old(entries), k)
    {
      r := Lookup(entries, k);
      entries := Remove(entries, k);
    }

    /** `del self[k]`: KeyError(k) when absent. */
    method Delete(k: Key) returns (r: Result<()>)
      requires Valid()
      modifies this
      ensures Valid()
      ensures r.Ok? <==> HasKey(old(entries), k)
      ensures r.Err? ==> r.error == KeyError(k)
      ensures entries == Remove(old(entries), k)
    {
      if HasKey(entries, k) {
        r := Ok(());
      } else {
        r := Err(KeyError(k));
      }
      entries := Remove(entries, k);
    }
  }

  /** `Spine`: a list that only accepts manifest items. */
  class Spine {
    var items: seq<Item>

    constructor ()
      ensures items == []
    {
      items := [];
    }

    /** `append(item)`: an item goes at the end; anything else is a
        TypeError and the spine is unchanged. */
    method Append(arg: Arg) returns (r: Result<()>)
      modifies this
      ensures r.Ok? <==> arg.ManifestItem?
      ensures r.Err? ==> r.error == TypeError
      ensures items == if arg.ManifestItem? then old(items) + [arg.item] else old(items)
    {
      if arg.ManifestItem? {
        items := items + [arg.item];
        r := Ok(());
      } else {
        r := Err(TypeError);
      }
    }
  }

  // ------------------------------------------------------ table of contents

  /** `TocItems.Item`: an entry with its href, its title and its children. */
  datatype TocNode = TocNode(href: string, title: string, children: seq<TocNode>)

  /** The arguments of `TocItems.append(item, title=None, children=None)`:
      children are (item, title, children) tuples, missing entries None. */
  datatype TocArg = TocArg(item: Arg, title: Option<string>, children: seq<TocArg>)

  /** What `append` builds: a str with a title becomes a node whose children
      are the recursive expansion of the tuples; an existing node is taken as
      it is; a str without a title or any other value is a TypeError. The
      first failure met in document order is the one raised. */
  function Expand(a: TocArg): Result<TocNode>
    decreases a
  {
    match a.item
    case Str(h) =>
      if a.title.None? then Err(TypeError)
      else
        (match ExpandAll(a.children)
         case Err(e) => Err(e)
         case Ok(ns) => Ok(TocNode(h, a.title.value, ns)))
    case TocItem(n) => Ok(n)
    case _ => Err(TypeError)
  }

  function ExpandAll(cs: seq<TocArg>): Result<seq<TocNode>>
    decreases cs
  {
    if cs == [] then Ok([])
    else
      match Expand(cs[0])
      case Err(e) => Err(e)
      case Ok(n) => Prepend([n], ExpandAll(cs[1..]))
  }

  /** The arguments `append` accepts, at every depth. */
  predicate Accepted(a: TocArg)
    decreases a
  {
    match a.item
    case Str(_) => a.title.Some? && forall i :: 0 <= i < |a.children| ==> Accepted(a.children[i])
    case TocItem(_) => true
    case _ => false
  }

  /** `append` succeeds exactly on accepted arguments; a str entry then
      becomes one node with that href and title and one child per tuple, each
      the expansion of that tuple, in order. */
  lemma {:induction false} ExpandSpec(a: TocArg)
    ensures Expand(a).Ok? <==> Accepted(a)
    ensures Expand(a).Err? ==> Expand(a).error == TypeError
    ensures Expand(a).Ok? && a.item.Str? ==>
      var n := Expand(a).value;
      n.href == a.item.s && n.title == a.title.value && |n.children| == |a.children| &&
      forall i :: 0 <= i < |a.children| ==> Expand(a.children[i]) == Ok(n.children[i])
    ensures a.item.TocItem? ==> Expand(a) == Ok(a.item.node)
    decreases a, 1
  {
    if a.item.Str? && a.title.Some? {
      ExpandAllSpec(a.children);
    }
  }

  lemma {:induction false} ExpandAllSpec(cs: seq<TocArg>)
    ensures ExpandAll(cs).Ok? <==> forall i :: 0 <= i < |cs| ==> Accepted(cs[i])
    ensures ExpandAll(cs).Err? ==> ExpandAll(cs).error == TypeError
    ensures ExpandAll(cs).Ok? ==> |ExpandAll(cs).value| == |cs|
    ensures ExpandAll(cs).Ok? ==>
      forall i :: 0 <= i < |cs| ==> Expand(cs[i]) == Ok(ExpandAll(cs).value[i])
    decreases cs, 0
  {
    if cs != [] {
      ExpandSpec(cs[0]);
      ExpandAllSpec(cs[1..]);
      assert forall i :: 1 <= i < |cs| ==> cs[i] == cs[1..][i - 1];
    }
  }

  /** One step of ExpandAll from the front, for the loop in Build. */
  lemma ExpandAllStep(cs: seq<TocArg>, i: nat, done: seq<TocNode>)
    requires i < |cs|
    ensures Expand(cs[i]).Ok? ==>
      Prepend(done, ExpandAll(cs[i..])) == Prepend(done + [Expand(cs[i]).value], ExpandAll(cs[i + 1..]))
    ensures Expand(cs[i]).Err? ==> ExpandAll(cs[i..]) == Err(Expand(cs[i]).error)
  {
    assert cs[i..][0] == cs[i];
    assert cs[i..][1..] == cs[i + 1..];
    if Expand(cs[i]).Ok? {
      var n := Expand(cs[i]).value;
      match ExpandAll(cs[i + 1..])
      case Err(e) =>
      case Ok(ns) =>
        assert done + ([n] + ns) == (done + [n]) + ns;
    }
  }

  /** The body of `TocItems.append`: builds the node, appending each
      expanded child tuple to its children in turn. */
  method Build(a: TocArg) returns (r: Result<TocNode>)
    ensures r == Expand(a)
    decreases a
  {
    match a.item {
      case Str(h) =>
        if a.title.None? {
          return Err(TypeError);
        }
        var children: seq<TocNode> := [];
        var i := 0;
        assert a.children[i..] == a.children;
        assert Prepend(children, ExpandAll(a.children)) == ExpandAll(a.children) by {
          match ExpandAll(a.children)
          case Err(_) =>
          case Ok(ns) => assert children + ns == ns;
        }
        while i < |a.children|
          invariant 0 <= i <= |a.children|
          invariant ExpandAll(a.children) == Prepend(children, ExpandAll(a.children[i..]))
        {
          ExpandAllStep(a.children, i, children);
          var c := Build(a.children[i]);
          if c.Err? {
            return Err(c.error);
          }
          children := children + [c.value];
          i := i + 1;
        }
        assert a.children[i..] == [];
        assert children + [] == children;
        return Ok(TocNode(h, a.title.value, children));
      case TocItem(n) =>
        return Ok(n);
      case _ =>
        return Err(TypeError);
    }
  }

  /** `Toc`: the root list of entries, with the backing manifest item and
      the document title. */
  class Toc {
    var item: Option<Item>
    var title: Option<string>
    var entries: seq<TocNode>

    constructor (item: Option<Item>, title: Option<string>)
      ensures this.item == item && this.title == title && entries == []
    {
      this.item := item;
      this.title := title;
      entries := [];
    }

    /** `append`: exactly one node is added at the end when the expansion
        succeeds, and the toc is unchanged when it fails. */
    method Append(a: TocArg) returns (r: Result<TocNode>)
      modifies this`entries
      ensures r == Expand(a)
      ensures entries == if r.Ok? then old(entries) + [r.value] else old(entries)
    {
      r := Build(a);
      if r.Ok? {
        entries := entries + [r.value];
      }
    }
  }

  // ---------------------------------------------------- attributed strings

  /** The Python object held as an attributed string's text: a str, None
      (the text of an element that has none) or the `uuid.UUID` object the
      writer synthesises the uid from. */
  datatype Value = Text(s: string) | NoText | UuidObject(hex: string)
  {
    /** `bool(value)`. */
    predicate Truthy()
    {
      match this
      case Text(s) => s != ""
      case NoText => false
      case UuidObject(_) => true
    }
  }

  /** The text of an element, as a Value. */
  function TextValue(t: Option<string>): Value
  {
    match t
    case None => NoText
    case Some(s) => Text(s)
  }

  /** `AttributedString`: a text with a dict of attributes. */
  datatype AS = AS(value: Value, attrs: map<string, Option<string>>)
  {
    /** `bool(astr)` is the truth of the text (`__bool__`). */
    predicate Truthy()
    {
      value.Truthy()
    }

    /** `astr.get(k)`: None both for a missing key and for a None value. */
    function Get(k: string): Option<string>
    {
      if k in attrs then attrs[k] else None
    }

    /** `astr[k]`: a missing key is a KeyError. */
    function Index(k: string): (r: Result<Option<string>>)
      ensures r.Ok? <==> k in attrs
      ensures r.Ok? ==> r.value == attrs[k]
      ensures r.Err? ==> r.error == KeyError(Some(k))
    {
      if k in attrs then Ok(attrs[k]) else Err(KeyError(Some(k)))
    }

    /** `str(astr)`: `__str__` returns the text, and Python refuses a
        `__str__` whose result is not a str. */
    function Str(): (r: Result<string>)
      ensures r.Ok? <==> value.Text?
      ensures r.Ok? ==> r.value == value.s
      ensures r.Err? ==> r.error == TypeError
    {
      if value.Text? then Ok(value.s) else Err(TypeError)
    }
  }

  // -------------------------------------------------------------- metadata

  /** A metadata entry: the list a multi-valued row stores, or the single
      value (possibly None) a single-valued row stores. */
  datatype Field = Many(items: seq<AS>) | One(item: Option<AS>)
  {
    /** `bool(field)`: a list by its length, a value by its own truth. */
    predicate Truthy()
    {
      match this
      case Many(xs) => xs != []
      case One(None) => false
      case One(Some(a)) => a.Truthy()
    }
  }

  /** `meta['dates']`: three keys, in this insertion order. */
  datatype Dates = Dates(creation: Option<Date>, publication: Option<Date>, modification: Option<Date>)

  const DATE_KEYS: seq<string> := ["creation", "publication", "modification"]

  /** One of the three date keys. */
  type DateKey = k: string | k in DATE_KEYS witness "creation"

  const NO_DATES := Dates(None, None, None)

  /** `meta['dates'][k] = v` for one of the three keys. */
  function WithDate(d: Dates, k: string, v: Option<Date>): (r: Dates)
    requires k in DATE_KEYS
    ensures k == "creation" ==> r == d.(creation := v)
    ensures k == "publication" ==> r == d.(publication := v)
    ensures k == "modification" ==> r == d.(modification := v)
  {
    if k == "creation" then d.(creation := v)
    else if k == "publication" then d.(publication := v)
    else d.(modification := v)
  }

  /** `self.meta`: the table-driven entries and the dates. */
  datatype Meta = Meta(fields: map<string, Field>, dates: Dates)

  /** The metadata a fresh document starts with. */
  function InitialMeta(): (m: Meta)
    ensures m.dates == NO_DATES
    ensures forall k :: k in m.fields ==> !m.fields[k].Truthy()
  {
    Meta(map[
      "contributors" := Many([]),
      "creators" := Many([]),
      "description" := One(None),
      "identifiers" := Many([]),
      "publisher" := One(None),
      "languages" := Many([]),
      "source" := One(None),
      "subjects" := Many([]),
      "titles" := Many([])], NO_DATES)
  }

  /** A row of a dialect's metadata table: the Dublin Core tag, the
      attribute names, whether the field holds a list, and the key the
      field is stored under, which each table spells out (KeyedRows states
      how it follows from the tag). */
  datatype Row = Row(tag: string, attrs: seq<string>, multi: bool, key: string)

  /** The key a row's field is stored under. */
  function FieldKey(r: Row): string
  {
    r.key
  }

  /** The row's key is `tag + ('s' if multi else '')`. */
  predicate Keyed(r: Row)
  {
    r.key == r.tag + (if r.multi then "s" else "")
  }

  predicate KeyedRows(rows: seq<Row>)
  {
    forall i :: 0 <= i < |rows| ==> Keyed(rows[i])
  }

  /** Every key the rows read holds the shape of its row (a list for a
      multi-valued row, a single value otherwise), when it is present. */
  predicate Shaped(m: Meta, rows: seq<Row>)
  {
    forall r :: r in rows && FieldKey(r) in m.fields ==> m.fields[FieldKey(r)].Many? == r.multi
  }

  /** A table's rows keep their shapes in every suffix. */
  lemma ShapedSuffix(meta: Meta, rows: seq<Row>, i: nat)
    requires Shaped(meta, rows) && i <= |rows|
    ensures Shaped(meta, rows[i..])
  {
    forall r | r in rows[i..] ensures r in rows {
      var j :| 0 <= j < |rows[i..]| && rows[i..][j] == r;
      assert rows[i + j] == r;
    }
  }

  /** `E['dc'].format('application/epub+zip')`, the first child of every
      written metadata element. */
  const FORMAT := Element(Q(Dc, "format"), map[], Some("application/epub+zip"), [])

  /** `Epub._xml_meta` and what the dialects append to it. */
  function MetadataOf(children: seq<Element>): Element
  {
    Make(Q(Opf, "metadata"), map[], [FORMAT] + children)
  }

  /** The package element `_write_opf` builds. */
  function PackageElement(version: string, uidId: string, children: seq<Element>): Element
  {
    Make(Q(Opf, "package"), map["version" := version, "unique-identifier" := uidId], children)
  }

  /** The dc:date element both writers emit for a date under key k. */
  function DateElement(k: string, d: Date): Element
  {
    Element(Q(Dc, "date"), map[Clark(OPF_URI, "event") := k], Some(Stamp(d)), [])
  }

  /** The dc:date elements for the non-None dates, in key order. */
  function DateElements(d: Dates): (r: seq<Element>)
    ensures |r| <= 3
    ensures forall i :: 0 <= i < |r| ==>
      r[i].tag == Q(Dc, "date") && Clark(OPF_URI, "event") in r[i].attrs &&
      r[i].attrs[Clark(OPF_URI, "event")] in DATE_KEYS
    ensures d == NO_DATES <==> r == []
  {
    DateElementIf("creation", d.creation) + DateElementIf("publication", d.publication) +
    DateElementIf("modification", d.modification)
  }

  /** Only dc:date selects written date elements. */
  lemma DateElementsTagged(d: Dates, t: Tag)
    requires t != Q(Dc, "date")
    ensures Tagged(DateElements(d), t) == []
  {
    TaggedNone(DateElements(d), t);
  }

  /** The dc:date element for key k, if its date is set. */
  function DateElementIf(k: string, v: Option<Date>): seq<Element>
  {
    if v.Some? then [DateElement(k, v.value)] else []
  }

  // ------------------------------------------------------------------- uid

  /** The first identifier whose `get('id')` equals `uidId`. */
  function FirstWithId(ids: seq<AS>, uidId: Option<string>): (r: Option<nat>)
    ensures r.Some? ==> r.value < |ids| && ids[r.value].Get("id") == uidId
    ensures r.Some? ==> forall j :: 0 <= j < r.value ==> ids[j].Get("id") != uidId
    ensures r.None? <==> forall j :: 0 <= j < |ids| ==> ids[j].Get("id") != uidId
    decreases |ids|
  {
    if ids == [] then None
    else if ids[0].Get("id") == uidId then Some(0)
    else
      match FirstWithId(ids[1..], uidId)
      case None => None
      case Some(i) => Some(i + 1)
  }

  /** The uid after reading: the first identifier whose id equals the
      package's `unique-identifier` (both may be None), or None. */
  function UidOnRead(ids: seq<AS>, uidId: Option<string>): (r: Option<AS>)
    ensures r.None? <==> forall j :: 0 <= j < |ids| ==> ids[j].Get("id") != uidId
    ensures r.Some? ==> r.value.Get("id") == uidId
    ensures r.Some? ==>
      exists i :: 0 <= i < |ids| && ids[i] == r.value && (forall j :: 0 <= j < i ==> ids[j].Get("id") != uidId)
  {
    match FirstWithId(ids, uidId)
    case None => None
    case Some(i) => Some(ids[i])
  }

  /** The uid the writer synthesises from a `uuid4()` result. */
  function WriteUid(u: Value): (r: AS)
    ensures r.value == u && r.Index("id") == Ok(Some("uid_id")) && r.Get("scheme") == Some("uuid")
    ensures r.Str().Ok? <==> u.Text?
  {
    AS(u, map["id" := Some("uid_id"), "scheme" := Some("uuid")])
  }

  /** A package whose unique-identifier is the synthesised id selects the
      synthesised uid again from `identifiers == [uid]`. */
  lemma WrittenUidIsFound(u: Value, before: seq<AS>)
    requires forall j :: 0 <= j < |before| ==> before[j].Get("id") != Some("uid_id")
    ensures UidOnRead([WriteUid(u)], Some("uid_id")) == Some(WriteUid(u))
    ensures UidOnRead(before + [WriteUid(u)], Some("uid_id")) == Some(WriteUid(u))
  {
    var ids := before + [WriteUid(u)];
    assert ids[|before|] == WriteUid(u);
    assert forall j :: 0 <= j < |before| ==> ids[j] == before[j];
  }

  // ------------------------------------------------------- serialisation

  /** `E['opf'].item({...})` for one manifest item: the builder raises
      KeyError(NoneType) on a None id; the media-type is left out when the
      mimetype is None. */
  function ItemElement(it: Item, guess: string -> Option<string>): (r: Result<Element>)
    ensures r.Ok? <==> it.iid.Some?
    ensures r.Err? ==> r.error == NoneTypeKeyError
    ensures r.Ok? ==>
      r.value.tag == Q(Opf, "item") && r.value.children == [] &&
      r.value.Get("id") == it.iid && r.value.Get("href") == Some(it.href) &&
      r.value.Get("media-type") == Mimetype(it, guess) &&
      r.value.attrs.Keys <= {"id", "href", "media-type"}
  {
    if it.iid.None? then Err(NoneTypeKeyError)
    else
      var base := map["id" := it.iid.value, "href" := it.href];
      var attrs := match Mimetype(it, guess) case None => base case Some(t) => base["media-type" := t];
      Ok(Make(Q(Opf, "item"), attrs, []))
  }

  /** `_xml_manifest`: one item element per manifest value, in order. */
  function ManifestElement(vs: seq<Item>, guess: string -> Option<string>): (r: Result<Element>)
    ensures r.Ok? <==> forall i :: 0 <= i < |vs| ==> vs[i].iid.Some?
    ensures r.Ok? ==> r.value.tag == Q(Opf, "manifest") && |r.value.children| == |vs|
    ensures r.Ok? ==> forall i :: 0 <= i < |vs| ==> ItemElement(vs[i], guess) == Ok(r.value.children[i])
  {
    match MapResult(vs, it => ItemElement(it, guess))
    case Err(e) => Err(e)
    case Ok(cs) => Ok(Make(Q(Opf, "manifest"), map[], cs))
  }

  /** The `_xml_manifest` loop over the manifest. */
  method XmlManifest(m: Manifest, guess: string -> Option<string>) returns (r: Result<Element>)
    ensures r == ManifestElement(Values(m.entries), guess)
  {
    var vs := Values(m.entries);
    var f := it => ItemElement(it, guess);
    var cs: seq<Element> := [];
    var i := 0;
    assert vs[i..] == vs;
    assert Prepend(cs, MapResult(vs, f)) == MapResult(vs, f) by {
      match MapResult(vs, f)
      case Err(_) =>
      case Ok(ys) => assert cs + ys == ys;
    }
    while i < |vs|
      invariant 0 <= i <= |vs|
      invariant MapResult(vs, f) == Prepend(cs, MapResult(vs[i..], f))
    {
      MapResultStep(vs, i, f, cs);
      var c := ItemElement(vs[i], guess);
      if c.Err? {
        return Err(c.error);
      }
      cs := cs + [c.value];
      i := i + 1;
    }
    assert vs[i..] == [];
    assert cs + [] == cs;
    r := Ok(Make(Q(Opf, "manifest"), map[], cs));
  }

  /** `E['opf'].itemref({'idref': item.iid})`; a None iid is the builder's
      KeyError(NoneType). */
  function ItemrefElement(it: Item): (r: Result<Element>)
    ensures r.Ok? <==> it.iid.Some?
    ensures r.Err? ==> r.error == NoneTypeKeyError
    ensures r.Ok? ==> r.value == Make(Q(Opf, "itemref"), map["idref" := it.iid.value], [])
  {
    if it.iid.None? then Err(NoneTypeKeyError) else Ok(Make(Q(Opf, "itemref"), map["idref" := it.iid.value], []))
  }

  /** `_xml_spine`: one itemref per spine entry, in order. */
  function SpineElement(items: seq<Item>): (r: Result<Element>)
    ensures r.Ok? <==> forall i :: 0 <= i < |items| ==> items[i].iid.Some?
    ensures r.Ok? ==> r.value.tag == Q(Opf, "spine") && r.value.attrs == map[] && |r.value.children| == |items|
    ensures r.Ok? ==> forall i :: 0 <= i < |items| ==> ItemrefElement(items[i]) == Ok(r.value.children[i])
  {
    match MapResult(items, ItemrefElement)
    case Err(e) => Err(e)
    case Ok(cs) => Ok(Make(Q(Opf, "spine"), map[], cs))
  }

  /** The `_xml_spine` loop over the spine. */
  method XmlSpine(s: Spine) returns (r: Result<Element>)
    ensures r == SpineElement(s.items)
  {
    var items := s.items;
    var cs: seq<Element> := [];
    var i := 0;
    assert items[i..] == items;
    assert Prepend(cs, MapResult(items, ItemrefElement)) == MapResult(items, ItemrefElement) by {
      match MapResult(items, ItemrefElement)
      case Err(_) =>
      case Ok(ys) => assert cs + ys == ys;
    }
    while i < |items|
      invariant 0 <= i <= |items|
      invariant MapResult(items, ItemrefElement) == Prepend(cs, MapResult(items[i..], ItemrefElement))
    {
      MapResultStep(items, i, ItemrefElement, cs);
      var c := ItemrefElement(items[i]);
      if c.Err? {
        return Err(c.error);
      }
      cs := cs + [c.value];
      i := i + 1;
    }
    assert items[i..] == [];
    assert cs + [] == cs;
    r := Ok(Make(Q(Opf, "spine"), map[], cs));
  }

  // ------------------------------------------------------------- reading

  /** `self.manifest[getxmlattr(item, 'id')] = getxmlattr(item, 'href')`:
      Python evaluates the value before the key; a None href is neither a
      str nor an item and `__setitem__` refuses it. */
  function ReadItem(es: Entries, e: Element): (r: Result<Entries>)
    ensures r.Ok? <==> GetXmlAttr(e, "href").Ok? && GetXmlAttr(e, "href").value.Some? && GetXmlAttr(e, "id").Ok?
    ensures r.Ok? ==>
      var id := GetXmlAttr(e, "id").value;
      r.value == Store(es, id, Item(id, GetXmlAttr(e, "href").value.value))
    ensures GetXmlAttr(e, "href").Err? ==> r == Err(GetXmlAttr(e, "href").error)
    ensures GetXmlAttr(e, "href").Ok? && GetXmlAttr(e, "id").Err? ==> r == Err(GetXmlAttr(e, "id").error)
    ensures GetXmlAttr(e, "href") == Ok(None) && GetXmlAttr(e, "id").Ok? ==> r == Err(TypeError)
    ensures e.tag == Q(Opf, "item") && "id" in e.attrs && "href" in e.attrs ==>
      r == Ok(Store(es, Some(e.attrs["id"]), Item(Some(e.attrs["id"]), e.attrs["href"])))
    ensures e.tag == Q(Opf, "item") && "id" in e.attrs && "href" !in e.attrs && Clark("opf", "href") !in e.attrs ==>
      r == Err(TypeError)
  {
    match GetXmlAttr(e, "href")
    case Err(x) => Err(x)
    case Ok(h) =>
      match GetXmlAttr(e, "id")
      case Err(x) => Err(x)
      case Ok(id) => SetEntry(es, id, if h.Some? then Str(h.value) else OtherObject)
  }

  /** `_read_manifest`'s loop, from the entries so far. */
  function ReadItems(es: Entries, items: seq<Element>): Result<Entries>
    decreases |items|
  {
    if items == [] then Ok(es)
    else
      match ReadItem(es, items[0])
      case Err(x) => Err(x)
      case Ok(next) => ReadItems(next, items[1..])
  }

  /** `opftree.findall('./opf:manifest/opf:item')`. */
  function ManifestItems(opf: Element): seq<Element>
  {
    Select(opf, [Q(Opf, "manifest"), Q(Opf, "item")])
  }

  /** One step of ReadItems. */
  lemma ReadItemsStep(es: Entries, items: seq<Element>, i: nat)
    requires i < |items|
    ensures ReadItem(es, items[i]).Err? ==> ReadItems(es, items[i..]) == Err(ReadItem(es, items[i]).error)
    ensures ReadItem(es, items[i]).Ok? ==> ReadItems(es, items[i..]) == ReadItems(ReadItem(es, items[i]).value, items[i + 1..])
  {
    assert items[i..][0] == items[i] && items[i..][1..] == items[i + 1..];
  }

  /** The body of `_read_manifest`'s loop for one `opf:item`. */
  method ReadOneItem(m: Manifest, e: Element) returns (r: Result<()>)
    requires m.Valid()
    modifies m
    ensures m.Valid()
    ensures r.Ok? <==> ReadItem(old(m.entries), e).Ok?
    ensures r.Ok? ==> m.entries == ReadItem(old(m.entries), e).value
    ensures r.Err? ==> r.error == ReadItem(old(m.entries), e).error
  {
    var h := GetXmlAttr(e, "href");
    if h.Err? {
      return Err(h.error);
    }
    var id := GetXmlAttr(e, "id");
    if id.Err? {
      return Err(id.error);
    }
    r := m.SetItem(id.value, if h.value.Some? then Str(h.value.value) else OtherObject);
  }

  /** `_read_manifest`: fills the manifest in document order. */
  method ReadManifest(m: Manifest, opf: Element) returns (r: Result<()>)
    requires m.Valid()
    modifies m
    ensures m.Valid()
    ensures r.Ok? <==> ReadItems(old(m.entries), ManifestItems(opf)).Ok?
    ensures r.Ok? ==> m.entries == ReadItems(old(m.entries), ManifestItems(opf)).value
    ensures r.Err? ==> r.error == ReadItems(old(m.entries), ManifestItems(opf)).error
  {
    r := ReadItemsInto(m, ManifestItems(opf));
  }

  /** `_read_manifest`'s loop over the selected items. */
  method ReadItemsInto(m: Manifest, items: seq<Element>) returns (r: Result<()>)
    requires m.Valid()
    modifies m
    ensures m.Valid()
    ensures r.Ok? <==> ReadItems(old(m.entries), items).Ok?
    ensures r.Ok? ==> m.entries == ReadItems(old(m.entries), items).value
    ensures r.Err? ==> r.error == ReadItems(old(m.entries), items).error
  {
    var i := 0;
    assert items[i..] == items;
    while i < |items|
      invariant 0 <= i <= |items| && m.Valid()
      invariant ReadItems(old(m.entries), items) == ReadItems(m.entries, items[i..])
    {
      ReadItemsStep(m.entries, items, i);
      ghost var pre := m.entries;
      var one := ReadOneItem(m, items[i]);
      if one.Err? {
        assert one == Err(ReadItem(pre, items[i]).error);
        assert ReadItems(old(m.entries), items) == Err(one.error);
        return one;
      }
      i := i + 1;
    }
    assert items[i..] == [];
    r := Ok(());
  }

  /** Manifest entries as the writer keeps them: every key is the item's own
      id, none is None, and keys are distinct. */
  predicate Coherent(es: Entries)
  {
    DistinctKeys(es) && forall i :: 0 <= i < |es| ==> es[i].0.Some? && es[i].1.iid == es[i].0
  }

  /** Reading back the serialised manifest of coherent entries gives the same
      entries, in the same order. */
  lemma {:induction false} ManifestRoundTrip(es: Entries, guess: string -> Option<string>)
    requires Coherent(es)
    ensures ManifestElement(Values(es), guess).Ok?
    ensures ReadItems([], ManifestElement(Values(es), guess).value.children) == Ok(es)
  {
    var cs := ManifestElement(Values(es), guess).value.children;
    var i := |es|;
    assert es[..i] == es && cs[i..] == [];
    while i > 0
      invariant 0 <= i <= |es|
      invariant ReadItems(es[..i], cs[i..]) == Ok(es)
    {
      i := i - 1;
      ReadWrittenItem(es, i, cs[i], guess);
      assert cs[i..][0] == cs[i] && cs[i..][1..] == cs[i + 1..];
    }
    assert es[..0] == [];
  }

  /** One written item element read back extends the entries before it. */
  lemma ReadWrittenItem(es: Entries, i: nat, e: Element, guess: string -> Option<string>)
    requires Coherent(es) && i < |es| && ItemElement(es[i].1, guess) == Ok(e)
    ensures ReadItem(es[..i], e) == Ok(es[..i + 1])
  {
    var (k, it) := es[i];
    assert "id" in e.attrs && "href" in e.attrs;
    assert ReadItem(es[..i], e) == Ok(Store(es[..i], k, it));
    assert !HasKey(es[..i], k);
    assert es[..i] + [(k, it)] == es[..i + 1];
  }

  /** The item each `opf:itemref` names: `self.manifest[getxmlattr(item, 'idref')]`. */
  function SpineEntry(es: Entries, e: Element): Result<Item>
  {
    match GetXmlAttr(e, "idref")
    case Err(x) => Err(x)
    case Ok(k) => Lookup(es, k)
  }

  /** `opftree.findall('./opf:spine/opf:itemref')`. */
  function SpineItemrefs(opf: Element): seq<Element>
  {
    Select(opf, [Q(Opf, "spine"), Q(Opf, "itemref")])
  }

  /** `_read_spine`: each itemref's item is appended, in document order; an
      unknown idref is a KeyError. */
  method ReadSpine(s: Spine, es: Entries, opf: Element) returns (r: Result<()>)
    modifies s
    ensures r.Ok? <==> MapResult(SpineItemrefs(opf), e => SpineEntry(es, e)).Ok?
    ensures r.Ok? ==> s.items == old(s.items) + MapResult(SpineItemrefs(opf), e => SpineEntry(es, e)).value
    ensures r.Err? ==> r.error == MapResult(SpineItemrefs(opf), e => SpineEntry(es, e)).error
  {
    r := AppendSpineEntries(s, es, SpineItemrefs(opf));
  }

  /** `_read_spine`'s loop over the selected itemrefs. */
  method AppendSpineEntries(s: Spine, es: Entries, refs: seq<Element>) returns (r: Result<()>)
    modifies s
    ensures r.Ok? <==> MapResult(refs, e => SpineEntry(es, e)).Ok?
    ensures r.Ok? ==> s.items == old(s.items) + MapResult(refs, e => SpineEntry(es, e)).value
    ensures r.Err? ==> r.error == MapResult(refs, e => SpineEntry(es, e)).error
  {
    r := AppendEach(s, refs, e => SpineEntry(es, e));
  }

  /** The loop of `AppendSpineEntries`, over any lookup `f`. */
  method AppendEach(s: Spine, refs: seq<Element>, f: Element -> Result<Item>) returns (r: Result<()>)
    modifies s
    ensures r.Ok? <==> MapResult(refs, f).Ok?
    ensures r.Ok? ==> s.items == old(s.items) + MapResult(refs, f).value
    ensures r.Err? ==> r.error == MapResult(refs, f).error
  {
    var done: seq<Item> := [];
    var i := 0;
    assert refs[i..] == refs;
    assert Prepend(done, MapResult(refs, f)) == MapResult(refs, f) by {
      match MapResult(refs, f)
      case Err(_) =>
      case Ok(ys) => assert done + ys == ys;
    }
    while i < |refs|
      invariant 0 <= i <= |refs|
      invariant MapResult(refs, f) == Prepend(done, MapResult(refs[i..], f))
      invariant s.items == old(s.items) + done
    {
      MapResultStep(refs, i, f, done);
      var it := f(refs[i]);
      if it.Err? {
        return Err(it.error);
      }
      var app := s.Append(ManifestItem(it.value));
      done := done + [it.value];
      i := i + 1;
    }
    assert refs[i..] == [];
    assert done + [] == done;
    r := Ok(());
  }

  /** Reading back a serialised spine against a manifest that holds every
      spine item under its id gives the same spine. */
  lemma SpineRoundTrip(es: Entries, items: seq<Item>)
    requires forall i :: 0 <= i < |items| ==> items[i].iid.Some? && Lookup(es, items[i].iid) == Ok(items[i])
    ensures SpineElement(items).Ok?
    ensures MapResult(SpineElement(items).value.children, e => SpineEntry(es, e)) == Ok(items)
  {
    var cs := SpineElement(items).value.children;
    var f := e => SpineEntry(es, e);
    forall i | 0 <= i < |cs|
      ensures f(cs[i]) == Ok(items[i])
    {
      assert ItemrefElement(items[i]) == Ok(cs[i]);
      assert "idref" in cs[i].attrs;
    }
    var r := MapResult(cs, f);
    assert r.Ok?;
    assert r.value == items;
  }

  // ------------------------------------------------------------- versions

  /** The registered document classes. */
  datatype Dialect = Epub20 | Epub30

  /** The `version` class attribute of each. */
  function VersionOf(d: Dialect): string
  {
    match d
    case Epub20 => "2.0"
    case Epub30 => "3.0"
  }

  /** `VERSIONS`, filled by `__init_subclass__`: one entry per subclass under
      its version; the abstract base, version None, is not registered. */
  const VERSIONS: map<Option<string>, Dialect> := map[Some("2.0") := Epub20, Some("3.0") := Epub30]

  /** `VERSIONS[version]`. */
  function LookupVersion(v: Option<string>): (r: Result<Dialect>)
    ensures r.Ok? <==> v == Some("2.0") || v == Some("3.0")
    ensures r.Ok? ==> VersionOf(r.value) == v.value
    ensures r.Err? ==> r.error == KeyError(v)
  {
    if v in VERSIONS then Ok(VERSIONS[v]) else Err(KeyError(v))
  }

  /** Each subclass is found again under its own version. */
  lemma VersionsRegistry(d: Dialect)
    ensures LookupVersion(Some(VersionOf(d))) == Ok(d)
    ensures LookupVersion(None).Err?
  {
  }

  // ---------------------------------------------------- the container file

  /** The `META-INF/container.xml` document the writer emits. */
  function ContainerDoc(opfpath: string): Element
  {
    Make(Q(Container, "container"), map[], [
      Make(Q(Container, "rootfiles"), map[], [
        Make(Q(Container, "rootfile"),
          map["full-path" := opfpath, "media-type" := "application/oebps-package+xml"], [])])])
  }

  /** What the reader takes from it:
      `tree.find('./container:rootfiles/container:rootfile').get('full-path')`;
      a missing rootfile is an AttributeError on None. */
  function RootfilePath(container: Element): (r: Result<Option<string>>)
    ensures r.Err? <==> Find(container, [Q(Container, "rootfiles"), Q(Container, "rootfile")]).None?
    ensures r.Err? ==> r.error == AttributeError
  {
    match Find(container, [Q(Container, "rootfiles"), Q(Container, "rootfile")])
    case None => Err(AttributeError)
    case Some(rf) => Ok(rf.Get("full-path"))
  }

  /** The reader finds the OPF path the writer put into the container. */
  lemma ContainerRoundTrip(opfpath: string)
    ensures RootfilePath(ContainerDoc(opfpath)) == Ok(Some(opfpath))
  {
    var c := ContainerDoc(opfpath);
    var rfs := c.children[0];
    var rf := rfs.children[0];
    var path := [Q(Container, "rootfiles"), Q(Container, "rootfile")];
    assert Tagged(c.children, path[0]) == [rfs] by {
      assert c.children[1..] == [];
    }
    assert Tagged(rfs.children, path[1]) == [rf] by {
      assert rfs.children[1..] == [];
    }
    SelectOneStep(rfs, path[1]);
    assert path[1..] == [path[1]];
    assert path[1..][1..] == [];
    assert Select(c, path) == SelectAll([rfs], path[1..]);
    assert SelectAll([rfs], path[1..]) == Select(rfs, path[1..]) + SelectAll([], path[1..]);
  }

  // --------------------------------------------------------------- members

  /** `Epub.writestr(item, data)`: anything but an item the manifest already
      holds under its id is added first; the member is written under the
      item's href joined to the OPF file's folder. */
  method WriteStr(m: Manifest, z: Archive, opfpath: string, arg: AddArg, data: Payload) returns (item: Item)
    requires m.Valid()
    modifies m, z`writes
    ensures m.Valid()
    ensures arg.Existing? && HasKey(old(m.entries), arg.item.iid) ==> item == arg.item && m.entries == old(m.entries)
    ensures !(arg.Existing? && HasKey(old(m.entries), arg.item.iid)) ==>
      item == (match arg
        case Href(h) => Item(Some(ItemId(|old(m.entries)|)), h)
        case Existing(it) => it) &&
      m.entries == Store(old(m.entries), item.iid, item)
    ensures z.writes == old(z.writes) + [(Join(DirName(opfpath), item.href), data)]
  {
    if arg.Existing? && HasKey(m.entries, arg.item.iid) {
      item := arg.item;
    } else {
      item := m.Add(arg);
    }
    z.Write(Join(DirName(opfpath), item.href), data);
  }

  /** `Epub.open(item)`: the member at the item's href, parsed. */
  function OpenItem(z: Archive, opfpath: string, href: string): (r: Result<Element>)
    reads z
    ensures r.Ok? <==> Join(DirName(opfpath), href) in z.members && z.members[Join(DirName(opfpath), href)].Doc?
  {
    match z.Read(Some(Join(DirName(opfpath), href)))
    case Err(x) => Err(x)
    case Ok(p) => Parse(p)
  }

  // ------------------------------------------------ table-driven reading

  /** The attribute dict of an extracted value:
      `{k.split(':', 1)[-1]: getxmlattr(t, k) for k in keys if getxmlattr(t, k) is not None}`,
      built key by key in order. */
  function AttrsOf(t: Element, keys: seq<string>): (r: Result<map<string, Option<string>>>)
    ensures r.Ok? ==> forall k :: k in r.value ==> r.value[k].Some?
    decreases |keys|
  {
    if keys == [] then Ok(map[])
    else
      var k := keys[|keys| - 1];
      match AttrsOf(t, keys[..|keys| - 1])
      case Err(x) => Err(x)
      case Ok(m) =>
        match GetXmlAttr(t, k)
        case Err(x) => Err(x)
        case Ok(None) => Ok(m)
        case Ok(Some(v)) => Ok(m[LocalName(k) := Some(v)])
  }

  /** `getxmlattr(t, k) is not None`, the filter of the attribute dict. */
  predicate Present(t: Element, k: string)
  {
    GetXmlAttr(t, k).Ok? && GetXmlAttr(t, k).value.Some?
  }

  /** `keys[i]` is present and no later key with the same local name is:
      its value is the one the dict keeps. */
  predicate LastPresent(t: Element, keys: seq<string>, i: int)
  {
    0 <= i < |keys| && Present(t, keys[i]) &&
    forall j :: i < j < |keys| && LocalName(keys[j]) == LocalName(keys[i]) ==> !Present(t, keys[j])
  }

  /** The attribute dict fails exactly when a lookup does, with the error
      of the first failing lookup. */
  lemma {:induction false} AttrsOfFails(t: Element, keys: seq<string>)
    ensures AttrsOf(t, keys).Ok? <==> forall i :: 0 <= i < |keys| ==> GetXmlAttr(t, keys[i]).Ok?
    ensures AttrsOf(t, keys).Err? ==> exists i :: 0 <= i < |keys| && GetXmlAttr(t, keys[i]) == Err(AttrsOf(t, keys).error) && (forall j :: 0 <= j < i ==> GetXmlAttr(t, keys[j]).Ok?)
    decreases |keys|
  {
    if keys != [] {
      var n := |keys| - 1;
      var init := keys[..n];
      AttrsOfFails(t, init);
      assert forall i :: 0 <= i < n ==> init[i] == keys[i];
      if AttrsOf(t, init).Err? {
        var i :| 0 <= i < |init| && GetXmlAttr(t, init[i]) == Err(AttrsOf(t, init).error) && (forall j :: 0 <= j < i ==> GetXmlAttr(t, init[j]).Ok?);
        assert GetXmlAttr(t, keys[i]) == Err(AttrsOf(t, keys).error);
      } else if GetXmlAttr(t, keys[n]).Err? {
        assert GetXmlAttr(t, keys[n]) == Err(AttrsOf(t, keys).error);
      }
    }
  }

  /** The keys of the attribute dict are the local names of the present
      keys. */
  lemma {:induction false} AttrsOfKeys(t: Element, keys: seq<string>)
    ensures AttrsOf(t, keys).Ok? ==>
      forall k :: k in AttrsOf(t, keys).value <==> exists i :: 0 <= i < |keys| && LocalName(keys[i]) == k && Present(t, keys[i])
    decreases |keys|
  {
    if keys != [] && AttrsOf(t, keys).Ok? {
      var n := |keys| - 1;
      var init := keys[..n];
      AttrsOfKeys(t, init);
      var m := AttrsOf(t, init).value;
      var r := AttrsOf(t, keys).value;
      assert r.Keys == if Present(t, keys[n]) then m.Keys + {LocalName(keys[n])} else m.Keys;
      forall x ensures x in r <==> exists i :: 0 <= i < |keys| && LocalName(keys[i]) == x && Present(t, keys[i]) {
        if x in m {
          var i :| 0 <= i < |init| && LocalName(init[i]) == x && Present(t, init[i]);
          assert init[i] == keys[i];
        }
        if exists i :: 0 <= i < |keys| && LocalName(keys[i]) == x && Present(t, keys[i]) {
          var i :| 0 <= i < |keys| && LocalName(keys[i]) == x && Present(t, keys[i]);
          if i < n {
            assert init[i] == keys[i];
          }
        }
      }
    }
  }

  /** Each local name holds the value of the last present key of that
      name. */
  lemma {:induction false} AttrsOfValues(t: Element, keys: seq<string>)
    ensures AttrsOf(t, keys).Ok? ==>
      forall i :: LastPresent(t, keys, i) ==>
        LocalName(keys[i]) in AttrsOf(t, keys).value && AttrsOf(t, keys).value[LocalName(keys[i])] == GetXmlAttr(t, keys[i]).value
    decreases |keys|
  {
    if keys != [] && AttrsOf(t, keys).Ok? {
      var n := |keys| - 1;
      var init := keys[..n];
      AttrsOfValues(t, init);
      var m := AttrsOf(t, init).value;
      var r := AttrsOf(t, keys).value;
      forall i | LastPresent(t, keys, i)
        ensures LocalName(keys[i]) in r && r[LocalName(keys[i])] == GetXmlAttr(t, keys[i]).value
      {
        if i < n {
          assert !Present(t, keys[n]) || LocalName(keys[n]) != LocalName(keys[i]);
          assert init[i] == keys[i];
          assert LastPresent(t, init, i) by {
            forall j | i < j < |init| && LocalName(init[j]) == LocalName(init[i]) ensures !Present(t, init[j]) {
              assert init[j] == keys[j];
            }
          }
        }
      }
    }
  }

  /** The keys a table may name: bare names and names with a registered prefix. */
  predicate Resolvable(keys: seq<string>)
  {
    forall i :: 0 <= i < |keys| ==> ':' in keys[i] ==> SplitColon(keys[i]).0 in NS
  }

  /** On a Dublin Core element the attribute collection cannot fail, and
      it records exactly the attributes that are present. */
  lemma {:induction false} AttrsOfTotal(t: Element, keys: seq<string>)
    requires t.tag.ns == Some(DC_URI) && Resolvable(keys)
    ensures AttrsOf(t, keys).Ok?
    ensures forall k :: k in AttrsOf(t, keys).value ==> exists i :: 0 <= i < |keys| && LocalName(keys[i]) == k
    decreases |keys|
  {
    if keys != [] {
      var init := keys[..|keys| - 1];
      assert Resolvable(init) by {
        forall i | 0 <= i < |init| ensures ':' in init[i] ==> SplitColon(init[i]).0 in NS {
          assert init[i] == keys[i];
        }
      }
      AttrsOfTotal(t, init);
      assert DC_URI in RNS;
      var m := AttrsOf(t, keys).value;
      forall k | k in m ensures exists i :: 0 <= i < |keys| && LocalName(keys[i]) == k {
        if k in AttrsOf(t, init).value {
          var i :| 0 <= i < |init| && LocalName(init[i]) == k;
          assert keys[i] == init[i];
        } else {
          assert LocalName(keys[|keys| - 1]) == k;
        }
      }
    }
  }

  /** One table row: `list(extract(...))` for a multi-valued row, the
      first extracted value or None (`next(it, None)`) otherwise. The
      extraction only starts when the generator is consumed, so a missing
      metadata element is an AttributeError on `None.findall`, and a
      single-valued row extracts its first element alone. */
  function ReadRow(md: Option<Element>, row: Row, ex: Element -> Result<AS>): (r: Result<Field>)
    ensures md.None? ==> r == Err(AttributeError)
    ensures r.Ok? ==> r.value.Many? == row.multi
    ensures md.Some? && row.multi ==>
      r == (match MapResult(Tagged(md.value.children, Q(Dc, row.tag)), ex)
        case Ok(xs) => Ok(Many(xs))
        case Err(x) => Err(x))
    ensures md.Some? && !row.multi && Tagged(md.value.children, Q(Dc, row.tag)) == [] ==> r == Ok(One(None))
    ensures md.Some? && !row.multi && Tagged(md.value.children, Q(Dc, row.tag)) != [] ==>
      r == (match ex(Tagged(md.value.children, Q(Dc, row.tag))[0])
        case Ok(a) => Ok(One(Some(a)))
        case Err(x) => Err(x))
  {
    match md
    case None => Err(AttributeError)
    case Some(m) =>
      var ts := Tagged(m.children, Q(Dc, row.tag));
      if row.multi then
        match MapResult(ts, ex)
        case Ok(xs) => Ok(Many(xs))
        case Err(x) => Err(x)
      else if ts == [] then Ok(One(None))
      else
        match ex(ts[0])
        case Ok(a) => Ok(One(Some(a)))
        case Err(x) => Err(x)
  }

  /** `for tag, attrs, multi in table: meta[key] = f(extract(tag, attrs))`. */
  function ReadRows(md: Option<Element>, rows: seq<Row>, ex: Row -> Element -> Result<AS>, fields: map<string, Field>)
    : Result<map<string, Field>>
    decreases |rows|
  {
    if rows == [] then Ok(fields)
    else
      match ReadRow(md, rows[0], ex(rows[0]))
      case Err(x) => Err(x)
      case Ok(f) => ReadRows(md, rows[1..], ex, fields[FieldKey(rows[0]) := f])
  }

  /** No two rows of a table share a field key. */
  predicate DistinctFieldKeys(rows: seq<Row>)
  {
    forall i, j :: 0 <= i < j < |rows| ==> FieldKey(rows[i]) != FieldKey(rows[j])
  }

  /** After the table is read, every row's key holds a field of the row's
      shape: the value of its read, which no later row overwrites. */
  lemma {:induction false} ReadRowsStores(md: Option<Element>, rows: seq<Row>, ex: Row -> Element -> Result<AS>,
                                          fields: map<string, Field>)
    requires DistinctFieldKeys(rows)
    requires ReadRows(md, rows, ex, fields).Ok?
    ensures forall i :: 0 <= i < |rows| ==>
      FieldKey(rows[i]) in ReadRows(md, rows, ex, fields).value &&
      ReadRow(md, rows[i], ex(rows[i])) == Ok(ReadRows(md, rows, ex, fields).value[FieldKey(rows[i])])
    ensures forall k :: k in fields && (forall i :: 0 <= i < |rows| ==> FieldKey(rows[i]) != k) ==>
      k in ReadRows(md, rows, ex, fields).value && ReadRows(md, rows, ex, fields).value[k] == fields[k]
    decreases |rows|
  {
    if rows != [] {
      var f := ReadRow(md, rows[0], ex(rows[0])).value;
      var next := fields[FieldKey(rows[0]) := f];
      assert DistinctFieldKeys(rows[1..]) by {
        forall i, j | 0 <= i < j < |rows[1..]| ensures FieldKey(rows[1..][i]) != FieldKey(rows[1..][j]) {
          assert rows[1..][i] == rows[i + 1] && rows[1..][j] == rows[j + 1];
        }
      }
      ReadRowsStores(md, rows[1..], ex, next);
      var r := ReadRows(md, rows, ex, fields).value;
      forall i | 0 <= i < |rows|
        ensures FieldKey(rows[i]) in r && ReadRow(md, rows[i], ex(rows[i])) == Ok(r[FieldKey(rows[i])])
      {
        if i == 0 {
          forall j | 0 <= j < |rows[1..]| ensures FieldKey(rows[1..][j]) != FieldKey(rows[0]) {
            assert rows[1..][j] == rows[j + 1];
          }
        } else {
          assert rows[i] == rows[1..][i - 1];
        }
      }
      forall k | k in fields && (forall i :: 0 <= i < |rows| ==> FieldKey(rows[i]) != k)
        ensures k in r && r[k] == fields[k]
      {
        assert FieldKey(rows[0]) != k;
        forall j | 0 <= j < |rows[1..]| ensures FieldKey(rows[1..][j]) != k {
          assert rows[1..][j] == rows[j + 1];
        }
      }
    }
  }

  /** The table is read when every row is. */
  lemma {:induction false} ReadRowsOk(md: Option<Element>, rows: seq<Row>, ex: Row -> Element -> Result<AS>,
                                      fields: map<string, Field>)
    requires forall i :: 0 <= i < |rows| ==> ReadRow(md, rows[i], ex(rows[i])).Ok?
    ensures ReadRows(md, rows, ex, fields).Ok?
    decreases |rows|
  {
    if rows != [] {
      var f := ReadRow(md, rows[0], ex(rows[0])).value;
      forall i | 0 <= i < |rows[1..]| ensures ReadRow(md, rows[1..][i], ex(rows[1..][i])).Ok? {
        assert rows[1..][i] == rows[i + 1];
      }
      ReadRowsOk(md, rows[1..], ex, fields[FieldKey(rows[0]) := f]);
    }
  }

  /** The table loop of `_read_meta`. */
  method ReadTable(md: Option<Element>, rows: seq<Row>, ex: Row -> Element -> Result<AS>, fields: map<string, Field>)
    returns (r: Result<map<string, Field>>)
    ensures r == ReadRows(md, rows, ex, fields)
  {
    var acc := fields;
    var i := 0;
    assert rows[i..] == rows;
    while i < |rows|
      invariant 0 <= i <= |rows|
      invariant ReadRows(md, rows, ex, fields) == ReadRows(md, rows[i..], ex, acc)
    {
      assert rows[i..][0] == rows[i] && rows[i..][1..] == rows[i + 1..];
      var f := ReadRow(md, rows[i], ex(rows[i]));
      if f.Err? {
        return Err(f.error);
      }
      acc := acc[FieldKey(rows[i]) := f.value];
      i := i + 1;
    }
    r := Ok(acc);
  }
}
