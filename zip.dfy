/** The ZIP archive as the document model sees it: named members to read,
    an ordered log of `writestr` calls, and its open/closed state. Member
    bytes are abstracted: an XML member holds its parsed tree. Also the two
    `posixpath` functions the package joins member paths with. */
module Zip {
  import opened Wrappers
  import opened Xml

  /** A member's content: raw text, or an XML document given by its root
      (what `lxml.etree.tostring` wrote and `lxml.etree.parse` reads back). */
  datatype Payload = Bytes(data: string) | Doc(root: Element)

  /** `lxml.etree.parse(f).getroot()`: a non-XML member is a syntax error. */
  function Parse(p: Payload): (r: Result<Element>)
    ensures r.Ok? <==> p.Doc?
    ensures p.Doc? ==> r.value == p.root
    ensures p.Bytes? ==> r.error == SyntaxError
  {
    match p
    case Doc(root) => Ok(root)
    case Bytes(_) => Err(SyntaxError)
  }

  class Archive {
    /** What `ZipFile.open(name)` finds. */
    var members: map<string, Payload>
    /** The `writestr` calls so far, in order. */
    var writes: seq<(string, Payload)>
    var closed: bool

    constructor (members: map<string, Payload>)
      ensures this.members == members && writes == [] && !closed
    {
      this.members := members;
      writes := [];
      closed := false;
    }

    /** `ZipFile.open(name)`: a missing name (None included) is a KeyError. */
    function Read(name: Option<string>): (r: Result<Payload>)
      reads this
      ensures r.Ok? <==> name.Some? && name.value in members
      ensures r.Ok? ==> r.value == members[name.value]
      ensures r.Err? ==> r.error == KeyError(name)
    {
      if name.Some? && name.value in members then Ok(members[name.value]) else Err(KeyError(name))
    }

    /** `ZipFile.writestr(name, data)`. */
    method Write(name: string, data: Payload)
      modifies this`writes
      ensures writes == old(writes) + [(name, data)]
    {
      writes := writes + [(name, data)];
    }

    /** `ZipFile.__exit__`. */
    method Close()
      modifies this`closed
      ensures closed
    {
      closed := true;
    }
  }

  // --------------------------------------------------------- posixpath

  /** The index just past the last '/' of `p`, 0 when there is none. */
  function AfterLastSlash(p: string): (i: nat)
    ensures i <= |p|
    ensures i > 0 ==> p[i - 1] == '/'
    ensures '/' !in p[i..]
    decreases |p|
  {
    if p == [] then 0
    else if p[|p| - 1] == '/' then |p|
    else
      var i := AfterLastSlash(p[..|p| - 1]);
      assert p[i..] == p[..|p| - 1][i..] + [p[|p| - 1]];
      i
  }

  predicate AllSlashes(s: string)
  {
    forall i :: 0 <= i < |s| ==> s[i] == '/'
  }

  /** `s.rstrip('/')`. */
  function RStripSlash(s: string): (r: string)
    ensures |r| <= |s| && r == s[..|r|]
    ensures r == [] || r[|r| - 1] != '/'
    ensures AllSlashes(s[|r|..])
    decreases |s|
  {
    if s != [] && s[|s| - 1] == '/' then
      var r := RStripSlash(s[..|s| - 1]);
      assert s[|r|..] == s[..|s| - 1][|r|..] + ['/'];
      r
    else s
  }

  /** `posixpath.dirname(p)`: the part before the last '/', with trailing
      slashes dropped unless it is made of slashes only. */
  function DirName(p: string): (r: string)
    ensures '/' !in p ==> r == ""
    ensures |r| <= |p| && r == p[..|r|]
  {
    var head := p[..AfterLastSlash(p)];
    if head != [] && !AllSlashes(head) then RStripSlash(head) else head
  }

  /** `posixpath.join(a, b)`: an absolute `b` wins; otherwise `b` is appended
      after a '/' unless `a` is empty or already ends with one. */
  function Join(a: string, b: string): (r: string)
    ensures |b| > 0 && b[0] == '/' ==> r == b
    ensures !(|b| > 0 && b[0] == '/') && a == "" ==> r == b
    ensures EndsWith(r, b)
  {
    if |b| > 0 && b[0] == '/' then b
    else if a == [] || a[|a| - 1] == '/' then a + b
    else a + "/" + b
  }

  predicate EndsWith(s: string, suffix: string)
  {
    |suffix| <= |s| && s[|s| - |suffix|..] == suffix
  }

  /** A member path relative to an OPF file at the archive root is the
      path itself; one in a folder is prefixed by that folder. */
  lemma JoinOpfDir(folder: string, name: string, b: string)
    requires '/' !in folder && folder != "" && '/' !in name
    requires |b| > 0 && b[0] != '/'
    ensures Join(DirName(name), b) == b
    ensures Join(DirName(folder + "/" + name), b) == folder + "/" + b
  {
    var p := folder + "/" + name;
    assert p[|folder|] == '/';
    var i := AfterLastSlash(p);
    assert i == |folder| + 1;
    assert p[..i] == folder + "/";
    assert !AllSlashes(p[..i]) by {
      assert p[..i][0] == folder[0];
      assert folder[0] != '/' by { assert folder[0] in folder; }
    }
    assert RStripSlash(folder + "/") == folder by {
      assert (folder + "/")[..|folder|] == folder;
      assert folder[|folder| - 1] in folder;
    }
  }
}
