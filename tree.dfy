/**
 * The ALPS node tree: the profile root (`Alps`), the recursive `Descriptor`,
 * their documents and links, and the node that the builder updates in place
 * while it reads a file or walks a directory.
 */
module Tree {
  import opened Results

  /** The failures of the builder. `Panic` is an `unwrap` on a failure. */
  datatype Error =
    | NoIndex       // a directory without `index.md`
    | FormatError   // file text not in one or three `---`-separated parts
    | DecodeError   // header text the YAML decoder rejects
    | ReadError     // a path that cannot be read as text (here: a directory named `index.md`)
    | Panic(cause: Error)

  /**
   * The message of a failure the source returns as an `Err` value; the texts of
   * decoder and filesystem failures come from those libraries and are not modelled.
   */
  function Message(e: Error): (r: Option<string>)
    ensures r.Some? ==> r.value == "No index found in profile directory" || r.value == "Can't handle file format"
    ensures e.Panic? ==> r == Message(e.cause)
  {
    match e
    case NoIndex => Some("No index found in profile directory")
    case FormatError => Some("Can't handle file format")
    case DecodeError => None
    case ReadError => None
    case Panic(cause) => Message(cause)
  }

  /** What `unwrap` does with a result: a failure becomes a panic; a panic stays one. */
  function Unwrapped<T>(r: Result<T, Error>): (u: Result<T, Error>)
    ensures u.Ok? <==> r.Ok?
    ensures u.Ok? ==> u.value == r.value
    ensures u.Err? ==> u.error.Panic?
  {
    match r
    case Ok(_) => r
    case Err(e) => if e.Panic? then r else Err(Panic(e))
  }

  /** The version a root without one is given. */
  function DefaultVersion(): (v: string)
    ensures v == "1.0"
  {
    "1.0"
  }

  /** The format a document without one is given. */
  function DefaultFormat(): (f: string)
    ensures f == "markdown"
  {
    "markdown"
  }

  datatype Doc = Doc(format: string, value: string)

  datatype Link = Link(rel: string, href: string, title: Option<string>)

  datatype DescriptorType = Idempotent | Semantic | Safe | Unsafe

  datatype Descriptor = Descriptor(
    id: Option<string>,
    name: Option<string>,
    title: Option<string>,
    rel: Option<string>,
    rt: Option<string>,
    link: Option<seq<Link>>,
    doc: Option<Doc>,
    def: Option<string>,
    href: Option<string>,
    tag: Option<string>,
    descriptorType: Option<DescriptorType>,
    descriptor: Option<seq<Descriptor>>)

  datatype Alps = Alps(
    version: string,
    descriptor: Option<seq<Descriptor>>,
    doc: Option<Doc>,
    link: Option<seq<Link>>)

  /** The serialized envelope `{ "alps": ... }`. */
  datatype AlpsDocument = AlpsDocument(alps: Alps)

  /** Which of the two node types a generic operation is instantiated at. */
  datatype Kind = RootKind | DescriptorKind

  /** A node of either type: the profile root or a descriptor. */
  datatype Node = Root(alps: Alps) | Desc(desc: Descriptor) {
    function Kind(): Kind {
      if Root? then RootKind else DescriptorKind
    }

    function GetDoc(): Option<Doc> {
      match this
      case Root(a) => a.doc
      case Desc(d) => d.doc
    }

    function Children(): Option<seq<Descriptor>> {
      match this
      case Root(a) => a.descriptor
      case Desc(d) => d.descriptor
    }

    /** The children as a list, `None` read as no children. */
    function ChildList(): seq<Descriptor> {
      Children().GetOr([])
    }

    function WithDoc(doc: Option<Doc>): (n: Node)
      ensures n.Kind() == Kind()
    {
      match this
      case Root(a) => Root(a.(doc := doc))
      case Desc(d) => Desc(d.(doc := doc))
    }

    function WithChildren(children: Option<seq<Descriptor>>): (n: Node)
      ensures n.Kind() == Kind()
    {
      match this
      case Root(a) => Root(a.(descriptor := children))
      case Desc(d) => Desc(d.(descriptor := children))
    }
  }

  /** A child list with one more child at the end; `None` becomes a one-element list. */
  function Pushed(children: Option<seq<Descriptor>>, d: Descriptor): (r: Option<seq<Descriptor>>)
    ensures r.Some? && r.value == children.GetOr([]) + [d]
  {
    match children
    case Some(v) => Some(v + [d])
    case None => Some([d])
  }

  /**
   * `add_descriptor` on a node value: the new child is last, the earlier
   * children are kept in order, and nothing but the child list changes.
   */
  function AddedDescriptor(n: Node, d: Descriptor): (r: Node)
    ensures r.Kind() == n.Kind()
    ensures r.Children().Some?
    ensures r.ChildList() == n.ChildList() + [d]
    ensures |r.ChildList()| == |n.ChildList()| + 1
    ensures r.WithChildren(None) == n.WithChildren(None)
  {
    n.WithChildren(Pushed(n.Children(), d))
  }

  /** `add_doc` on a node value: the document is replaced and nothing else changes. */
  function AddedDoc(n: Node, format: string, value: string): (r: Node)
    ensures r.Kind() == n.Kind()
    ensures r.GetDoc() == Some(Doc(format, value))
    ensures r.WithDoc(None) == n.WithDoc(None)
  {
    n.WithDoc(Some(Doc(format, value)))
  }

  /**
   * The node that `read_markdown_file` and `walk_profile` hold in a mutable
   * variable. The fields the source assigns after decoding are `doc`
   * (by `add_doc`) and `descriptor` (by `add_descriptor`); everything else
   * stays as decoded in `base`.
   */
  class Builder {
    const base: Node
    var doc: Option<Doc>
    var descriptor: Option<seq<Descriptor>>

    /** The node as it stands. */
    function Value(): Node
      reads this
    {
      base.WithDoc(doc).WithChildren(descriptor)
    }

    constructor (decoded: Node)
      ensures Value() == decoded
    {
      base := decoded;
      doc := decoded.GetDoc();
      descriptor := decoded.Children();
    }

    method AddDescriptor(d: Descriptor)
      modifies this
      ensures descriptor == Pushed(old(descriptor), d)
      ensures doc == old(doc)
      ensures Value() == AddedDescriptor(old(Value()), d)
    {
      match descriptor
      case Some(v) => descriptor := Some(v + [d]);
      case None => descriptor := Some([d]);
    }

    method AddDoc(format: string, value: string)
      modifies this
      ensures doc == Some(Doc(format, value))
      ensures descriptor == old(descriptor)
      ensures Value() == AddedDoc(old(Value()), format, value)
    {
      doc := Some(Doc(format, value));
    }
  }

  /** A document as written in a header: its `format` may be left out. */
  datatype DocHeader = DocHeader(format: Option<string>, value: string)

  /**
   * What the YAML decoder reads from a header: every key the two node types
   * know, each optional. Nested descriptors come out already decoded.
   */
  datatype Header = Header(
    version: Option<string>,
    id: Option<string>,
    name: Option<string>,
    title: Option<string>,
    rel: Option<string>,
    rt: Option<string>,
    link: Option<seq<Link>>,
    doc: Option<DocHeader>,
    def: Option<string>,
    href: Option<string>,
    tag: Option<string>,
    descriptorType: Option<DescriptorType>,
    descriptor: Option<seq<Descriptor>>)

  /** The header of `{}`: no key at all. */
  function EmptyHeader(): Header {
    Header(None, None, None, None, None, None, None, None, None, None, None, None, None)
  }

  /**
   * The YAML decoder, which is not part of this model: given the node type
   * asked for and the header text, the keys it read, or `None` when the text
   * is not a valid header for that type.
   */
  type Decoder = (Kind, string) -> Option<Header>

  /** A document with serde's default for a missing `format`. */
  function DecodedDoc(h: DocHeader): (d: Doc)
    ensures d.value == h.value
    ensures h.format.None? ==> d.format == "markdown"
    ensures h.format.Some? ==> d.format == h.format.value
  {
    Doc(h.format.GetOr(DefaultFormat()), h.value)
  }

  function DecodedDocs(h: Option<DocHeader>): Option<Doc> {
    match h
    case None => None
    case Some(d) => Some(DecodedDoc(d))
  }

  /**
   * `serde_yaml::from_str` at the requested type, then `unwrap`: keys the type
   * does not have are ignored, a missing `version` of the root becomes
   * `default_version()`, and a rejected header is a panic.
   */
  function Decode(dec: Decoder, kind: Kind, header: string): (r: Result<Node, Error>)
    ensures r.Ok? <==> dec(kind, header).Some?
    ensures r.Err? ==> r.error == Panic(DecodeError)
    ensures r.Ok? ==> r.value.Kind() == kind
    ensures r.Ok? ==> r.value.Children() == dec(kind, header).value.descriptor
    ensures r.Ok? ==> r.value.GetDoc() == DecodedDocs(dec(kind, header).value.doc)
    ensures r.Ok? && kind == RootKind ==>
      r.value.alps.version == dec(kind, header).value.version.GetOr("1.0")
    ensures r.Ok? && kind == DescriptorKind ==> r.value.desc.id == dec(kind, header).value.id
  {
    match dec(kind, header)
    case None => Err(Panic(DecodeError))
    case Some(h) =>
      var doc := DecodedDocs(h.doc);
      match kind
      case RootKind =>
        Ok(Root(Alps(h.version.GetOr(DefaultVersion()), h.descriptor, doc, h.link)))
      case DescriptorKind =>
        Ok(Desc(Descriptor(h.id, h.name, h.title, h.rel, h.rt, h.link, doc,
                           h.def, h.href, h.tag, h.descriptorType, h.descriptor)))
  }
}
