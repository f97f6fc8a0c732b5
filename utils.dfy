/** The namespace tables, the attribute resolver `getxmlattr`, the name
    qualifier `ns` and the length-dispatched date parser of dawn/utils.py. */
module Utils {
  import opened Wrappers
  import opened Xml

  const CONTAINER_URI := "urn:oasis:names:tc:opendocument:xmlns:container"
  const OPF_URI := "http://www.idpf.org/2007/opf"
  const OPS_URI := "http://www.idpf.org/2007/ops"
  const DC_URI := "http://purl.org/dc/elements/1.1/"
  const NCX_URI := "http://www.daisy.org/z3986/2005/ncx/"
  const HTML_URI := "http://www.w3.org/1999/xhtml"

  /** Prefix to namespace URI. */
  const NS: map<string, string> := map[
    "container" := CONTAINER_URI,
    "opf" := OPF_URI,
    "ops" := OPS_URI,
    "dc" := DC_URI,
    "ncx" := NCX_URI,
    "html" := HTML_URI]

  /** Namespace URI back to its prefix. */
  const RNS: map<string, string> := map[
    CONTAINER_URI := "container",
    OPF_URI := "opf",
    OPS_URI := "ops",
    DC_URI := "dc",
    NCX_URI := "ncx",
    HTML_URI := "html"]

  /** The prefixes `E[prefix]` is indexed with in the modelled code. */
  datatype Prefix = Container | Opf | Ops | Dc | Ncx | Html

  /** `NS[prefix]` for a prefix the code indexes `E` with. */
  function Uri(p: Prefix): string
  {
    match p
    case Container => CONTAINER_URI
    case Opf => OPF_URI
    case Ops => OPS_URI
    case Dc => DC_URI
    case Ncx => NCX_URI
    case Html => HTML_URI
  }

  /** The prefix as a key of NS. */
  function PrefixName(p: Prefix): string
  {
    match p
    case Container => "container"
    case Opf => "opf"
    case Ops => "ops"
    case Dc => "dc"
    case Ncx => "ncx"
    case Html => "html"
  }

  /** Uri agrees with the NS table. */
  lemma UriInNs(p: Prefix)
    ensures PrefixName(p) in NS && NS[PrefixName(p)] == Uri(p)
  {
  }

  /** A tag in one of the registered namespaces, as `E[prefix].local` builds it. */
  function Q(p: Prefix, local: string): Tag
  {
    Tag(Some(Uri(p)), local)
  }

  /** RNS is the inverse of NS: the NS values are pairwise distinct. */
  lemma RnsInvertsNs()
    ensures RNS.Keys == NS.Values
    ensures forall u :: u in RNS ==> RNS[u] in NS && NS[RNS[u]] == u
    ensures forall p :: p in NS ==> NS[p] in RNS && RNS[NS[p]] == p
  {
    forall u | u in NS.Values
      ensures u in RNS.Keys
    {
      var p :| p in NS && NS[p] == u;
      assert p in {"container", "opf", "ops", "dc", "ncx", "html"};
    }
    forall u | u in RNS.Keys
      ensures u in NS.Values
    {
      assert NS[RNS[u]] == u;
    }
  }

  /** Tags under different prefixes differ. */
  lemma DcIsNotOpf(x: string, y: string)
    ensures Q(Dc, x) != Q(Opf, y)
  {
    assert DC_URI[7] != OPF_URI[7];
  }

  /** The attribute key "{uri}local". */
  function Clark(uri: string, local: string): string
  {
    "{" + uri + "}" + local
  }

  /** The position of the first `c` in `s`. */
  function IndexOf(s: string, c: char): (i: nat)
    requires c in s
    ensures i < |s| && s[i] == c && c !in s[..i]
  {
    if s[0] == c then 0 else 1 + IndexOf(s[1..], c)
  }

  /** `s.split(':', 1)` for a name that holds a colon. */
  function SplitColon(s: string): (r: (string, string))
    requires ':' in s
    ensures s == r.0 + ":" + r.1 && ':' !in r.0
  {
    var i := IndexOf(s, ':');
    assert s == s[..i] + ":" + s[i + 1..];
    (s[..i], s[i + 1..])
  }

  /** Splitting "p:x" at its first colon gives back p and x. */
  lemma SplitPrefixed(p: string, x: string)
    requires ':' !in p
    ensures ':' in p + ":" + x
    ensures SplitColon(p + ":" + x) == (p, x)
  {
    var s := p + ":" + x;
    assert s[|p|] == ':';
    var i := IndexOf(s, ':');
    assert s[..|p|] == p;
    assert i == |p|;
    assert s[i + 1..] == x;
  }

  /** `k.split(':', 1)[-1]`: what follows the first colon, or the whole name. */
  function LocalName(k: string): string
  {
    if ':' in k then SplitColon(k).1 else k
  }

  /** The local name of "p:x" is x. */
  lemma LocalNamePrefixed(p: string, x: string)
    requires ':' !in p
    ensures LocalName(p + ":" + x) == x
  {
    SplitPrefixed(p, x);
  }

  /** `getxmlattr(tag, attr)`. A prefixed name is looked up under the
      prefix's namespace. A bare name is looked up unqualified and then under
      the key built from the element's own namespace's prefix: the fallback
      key holds the PREFIX where a Clark name holds the URI. */
  function GetXmlAttr(t: Element, attr: string): (r: Result<Option<string>>)
    ensures ':' in attr ==>
      (r.Ok? <==> SplitColon(attr).0 in NS) &&
      (r.Ok? ==> r.value == t.Get(Clark(NS[SplitColon(attr).0], SplitColon(attr).1))) &&
      (r.Err? ==> r.error == KeyError(Some(SplitColon(attr).0)))
    ensures ':' !in attr && attr in t.attrs ==> r == Ok(Some(t.attrs[attr]))
    ensures ':' !in attr && attr !in t.attrs ==>
      (r.Ok? <==> t.tag.ns.Some? && t.tag.ns.value in RNS) &&
      (r.Ok? ==> r.value == t.Get(Clark(RNS[t.tag.ns.value], attr))) &&
      (r.Err? ==> r.error == KeyError(t.tag.ns))
  {
    if ':' in attr then
      var (p, x) := SplitColon(attr);
      if p in NS then Ok(t.Get(Clark(NS[p], x))) else Err(KeyError(Some(p)))
    else if attr in t.attrs then Ok(Some(t.attrs[attr]))
    else
      match t.tag.ns
      case None => Err(KeyError(None))
      case Some(u) => if u in RNS then Ok(t.Get(Clark(RNS[u], attr))) else Err(KeyError(Some(u)))
  }

  /** `getxmlattr(x, attr)` where `x` came from `find` and may be None:
      Python raises AttributeError on `None.get` / `None.attrib`. */
  function GetXmlAttrOf(t: Option<Element>, attr: string): (r: Result<Option<string>>)
    ensures t.None? <==> r == Err(AttributeError)
    ensures t.Some? ==> r == GetXmlAttr(t.value, attr)
  {
    match t
    case None => Err(AttributeError)
    case Some(e) => GetXmlAttr(e, attr)
  }

  /** `ns(name)`: a prefixed name becomes its Clark key, a bare name is kept. */
  function Ns(name: string): (r: Result<string>)
    ensures ':' !in name ==> r == Ok(name)
    ensures ':' in name ==>
      (r.Ok? <==> SplitColon(name).0 in NS) &&
      (r.Ok? ==> r.value == Clark(NS[SplitColon(name).0], SplitColon(name).1))
    ensures r.Err? ==> r.error.KeyError?
  {
    if ':' in name then
      var (p, x) := SplitColon(name);
      if p in NS then Ok(Clark(NS[p], x)) else Err(KeyError(Some(p)))
    else Ok(name)
  }

  /** For a prefixed name, `getxmlattr` reads exactly the key `ns` writes. */
  lemma NsAgreesWithGetXmlAttr(t: Element, name: string)
    requires ':' in name
    ensures Ns(name).Ok? <==> GetXmlAttr(t, name).Ok?
    ensures Ns(name).Ok? ==> GetXmlAttr(t, name) == Ok(t.Get(Ns(name).value))
  {
  }

  /** The attribute names a metadata table lists: a bare name without braces,
      or a name under the "opf" prefix (the only prefix the tables use). */
  predicate TableKey(k: string)
  {
    '{' !in k && (':' in k ==> |k| >= 4 && k[..4] == "opf:")
  }

  /** The attribute names the metadata tables list are table keys. */
  lemma TableKeyNames()
    ensures TableKey("lang") && TableKey("id") && TableKey("opf:event")
    ensures TableKey("opf:role") && TableKey("opf:file-as") && TableKey("opf:scheme")
  {
    BareTableKey("lang");
    BareTableKey("id");
    OpfTableKey("opf:event", "event");
    OpfTableKey("opf:role", "role");
    OpfTableKey("opf:file-as", "file-as");
    OpfTableKey("opf:scheme", "scheme");
  }

  lemma BareTableKey(k: string)
    requires k == "lang" || k == "id"
    ensures TableKey(k) && ':' !in k && LocalName(k) == k && Ns(k) == Ok(k)
  {
  }

  lemma OpfTableKey(k: string, x: string)
    requires k == "opf" + ":" + x && (x == "event" || x == "role" || x == "file-as" || x == "scheme")
    ensures TableKey(k)
  {
    assert k[..4] == "opf:";
    assert '{' !in x;
  }

  /** A prefixed table key splits into "opf" and what follows "opf:". */
  lemma SplitTableKey(k: string)
    requires TableKey(k) && ':' in k
    ensures SplitColon(k) == ("opf", k[4..])
    ensures Ns(k) == Ok(Clark(OPF_URI, k[4..]))
  {
    assert k == "opf" + ":" + k[4..];
    SplitPrefixed("opf", k[4..]);
  }

  /** Every table key has an attribute key. */
  lemma TableKeyNs(k: string)
    requires TableKey(k)
    ensures Ns(k).Ok?
  {
    if ':' in k {
      SplitTableKey(k);
    }
  }

  /** Two table keys written under the same attribute key share their
      local name. */
  lemma NsSharesLocalName(k1: string, k2: string)
    requires TableKey(k1) && TableKey(k2)
    requires Ns(k1).Ok? && Ns(k2).Ok? && Ns(k1).value == Ns(k2).value
    ensures LocalName(k1) == LocalName(k2)
  {
    if ':' in k1 && ':' in k2 {
      SplitTableKey(k1);
      SplitTableKey(k2);
      var s := Ns(k1).value;
      assert k1[4..] == s[|OPF_URI| + 2..];
      assert k2[4..] == s[|OPF_URI| + 2..];
    }
  }

  /** The fallback key "{dc}k" of a bare name is never the attribute key of
      a table key. */
  lemma FallbackKeyIsNoTableKey(k: string, k2: string)
    requires TableKey(k2) && Ns(k2).Ok?
    ensures Ns(k2).value != Clark("dc", k)
  {
    if ':' in k2 {
      SplitTableKey(k2);
      assert Ns(k2).value[1] == 'h';
    } else {
      assert Clark("dc", k)[0] == '{';
    }
  }

  /** The fallback's sharp edge: on an OPF element that carries only the
      namespaced attribute "{http://www.idpf.org/2007/opf}toc", the bare
      lookup of "toc" misses it, because the fallback key is "{opf}toc". */
  lemma FallbackMissesNamespacedAttribute(v: string)
    ensures GetXmlAttr(Element(Q(Opf, "spine"), map[Clark(OPF_URI, "toc") := v], None, []), "toc") == Ok(None)
  {
    var t := Element(Q(Opf, "spine"), map[Clark(OPF_URI, "toc") := v], None, []);
    assert Clark(RNS[OPF_URI], "toc") == "{opf}toc";
    assert |Clark(OPF_URI, "toc")| != |"{opf}toc"|;
    assert "toc" !in t.attrs;
  }

  /** The four date layouts `parse_date` tries, longest first. */
  datatype DateFormat = Timestamp | Day | Month | Year

  /** A date as `parse_date` returns it: the format chosen and the text it
      was parsed from. `strptime` itself is not modelled. */
  datatype Date = Date(format: DateFormat, text: string)

  /** The exact length each format is picked for. */
  function Width(f: DateFormat): nat
  {
    match f
    case Timestamp => 20
    case Day => 10
    case Month => 7
    case Year => 4
  }

  /** The format `parse_date` picks for a value of length `n`, or None. */
  function FormatForLength(n: nat): (r: Option<DateFormat>)
    ensures r.Some? <==> n in {4, 7, 10, 20}
    ensures r.Some? ==> Width(r.value) == n
  {
    if n == 20 then Some(Timestamp)
    else if n == 10 then Some(Day)
    else if n == 7 then Some(Month)
    else if n == 4 then Some(Year)
    else None
  }

  /** `parse_date(d)`: the length of `d` alone picks the format. */
  function ParseDate(d: string): (r: Option<Date>)
    ensures r.Some? <==> |d| in {4, 7, 10, 20}
    ensures r.Some? ==> r.value.text == d && Width(r.value.format) == |d|
  {
    match FormatForLength(|d|)
    case None => None
    case Some(f) => Some(Date(f, d))
  }

  /** `strftime('%Y-%m-%dT%H:%M:%SZ')` of a parsed date: the missing
      fields take their `strptime` defaults (month 1, day 1, midnight). */
  function Stamp(d: Date): string
  {
    match d.format
    case Timestamp => d.text
    case Day => d.text + "T00:00:00Z"
    case Month => d.text + "-01T00:00:00Z"
    case Year => d.text + "-01-01T00:00:00Z"
  }

  /** Writing any parsed date and parsing it again gives a timestamp with the
      same stamp: the write format is the 20-character one. */
  lemma StampReparses(d: Date)
    requires |d.text| == Width(d.format)
    ensures |Stamp(d)| == 20
    ensures ParseDate(Stamp(d)) == Some(Date(Timestamp, Stamp(d)))
    ensures Stamp(ParseDate(Stamp(d)).value) == Stamp(d)
  {
  }
}
