/**
 * Reading one Markdown file with YAML frontmatter into a node:
 * `read_markdown_file` and the two `from_file` implementations.
 */
module Markdown {
  import opened Results
  import opened Text
  import opened Tree

  /** The separator the file text is split on (anywhere, not only on its own line). */
  const Delimiter: string := "---"

  /** The header to decode and the body to attach as a document. */
  datatype Sections = Sections(frontmatter: string, body: string)

  /**
   * The split-and-match of `read_markdown_file`: one part is all body, three
   * parts are (discarded prefix, header, body), any other count is rejected.
   * The header handed to the decoder is never empty (`{}` stands for a blank
   * one), and header and body are trimmed.
   */
  function SplitFile(text: string): (r: Result<Sections, Error>)
    ensures r.Err? ==> r.error == FormatError
    ensures r.Ok? ==> r.value.frontmatter != [] && Tight(r.value.frontmatter)
    ensures r.Ok? ==> Tight(r.value.body) && !Contains(r.value.body, Delimiter)
    ensures !Contains(text, Delimiter) ==> r == Ok(Sections("{}", Trim(text)))
  {
    var parts := Split(text, Delimiter);
    if |parts| == 1 then
      assert !Contains(Trim(parts[0]), Delimiter) by {
        TrimNoDelimiter(parts[0]);
      }
      Ok(Sections("{}", Trim(parts[0])))
    else if |parts| == 3 then
      var header := Trim(parts[1]);
      var body := Trim(parts[2]);
      assert !Contains(body, Delimiter) by {
        TrimNoDelimiter(parts[2]);
      }
      Ok(Sections(if header == [] then "{}" else header, body))
    else
      Err(FormatError)
  }

  /** A file is rejected exactly when it splits into neither one nor three parts. */
  lemma PartCount(text: string)
    ensures SplitFile(text).Err? <==> |Split(text, Delimiter)| != 1 && |Split(text, Delimiter)| != 3
  {
  }

  /**
   * A text of three parts is a prefix, the delimiter, a header, the delimiter
   * and a body, where prefix and header each meet the delimiter first right
   * after themselves and no part contains it; it reads as the trimmed header
   * (`{}` if blank) and the trimmed body.
   */
  lemma FileParts(text: string) returns (lead: string, header: string, body: string)
    requires |Split(text, Delimiter)| == 3
    ensures text == lead + Delimiter + header + Delimiter + body
    ensures Leftmost(lead, Delimiter) && Leftmost(header, Delimiter)
    ensures !Contains(lead, Delimiter) && !Contains(header, Delimiter) && !Contains(body, Delimiter)
    ensures SplitFile(text) == Ok(Sections(HeaderText(header), Trim(body)))
  {
    var parts := Split(text, Delimiter);
    lead, header, body := parts[0], parts[1], parts[2];
    assert parts == [lead, header, body];
    SplitLeftmost(text, Delimiter);
    JoinThree(lead, header, body);
    ThreeParts(lead, header, body);
  }

  lemma JoinThree(a: string, b: string, c: string)
    ensures Join([a, b, c], Delimiter) == a + Delimiter + b + Delimiter + c
  {
    var parts, tail := [a, b, c], [b, c];
    assert tail[1..] == [c];
    assert Join(tail, Delimiter) == b + Delimiter + c;
    assert parts[1..] == tail;
    assert Join(parts, Delimiter) == a + Delimiter + (b + Delimiter + c);
    Associate(a + Delimiter, b + Delimiter, c);
  }

  /**
   * The converse: a text built from such a prefix, header and body splits into
   * exactly those three parts, so it reads as the trimmed header and body.
   */
  lemma ThreeParts(lead: string, header: string, body: string)
    requires Leftmost(lead, Delimiter) && Leftmost(header, Delimiter) && !Contains(body, Delimiter)
    ensures Split(lead + Delimiter + header + Delimiter + body, Delimiter) == [lead, header, body]
    ensures SplitFile(lead + Delimiter + header + Delimiter + body) == Ok(Sections(HeaderText(header), Trim(body)))
  {
    JoinThree(lead, header, body);
    SplitJoin([lead, header, body], Delimiter);
  }

  /** Trimming cannot create an occurrence of the delimiter. */
  lemma TrimNoDelimiter(s: string)
    requires !Contains(s, Delimiter)
    ensures !Contains(Trim(s), Delimiter)
  {
    var lead, trail := TrimSplits(s);
    var t := Trim(s);
    forall i: nat | i + 3 <= |t|
      ensures !OccursAt(t, Delimiter, i)
    {
      OccursInside(lead, t, trail, Delimiter, i);
    }
  }

  /** What the header becomes once trimmed: `{}` when nothing is left. */
  function HeaderText(h: string): (r: string)
    ensures r != [] && Tight(r)
    ensures Blank(h) ==> r == "{}"
    ensures !Blank(h) ==> r == Trim(h)
  {
    var t := Trim(h);
    if t == [] then
      BracesTight();
      "{}"
    else t
  }

  /** The stand-in for a blank header has no whitespace at either end. */
  lemma BracesTight()
    ensures Tight("{}")
  {
    var braces := "{}";
    assert braces[0] == '{' && braces[1] == '}';
    assert !IsWhitespace('{') && !IsWhitespace('}');
  }

  /** Nothing in `a` can combine with a following delimiter into an earlier one. */
  predicate Delimits(a: string) {
    !Contains(a, Delimiter) && (a == [] || a[|a| - 1] != '-')
  }

  /** A text that continues with the delimiter after `a` splits right there. */
  lemma {:induction false} SplitAtDelimiter(a: string, b: string)
    requires Delimits(a)
    ensures Split(a + Delimiter + b, Delimiter) == [a] + Split(b, Delimiter)
  {
    var s := a + Delimiter + b;
    assert OccursAt(s, Delimiter, |a|) by {
      assert s[|a|..|a| + 3] == Delimiter;
    }
    forall j: nat | j < |a|
      ensures !OccursAt(s, Delimiter, j)
    {
      if j + 3 <= |a| {
        assert s[j..j + 3] == a[j..j + 3];
        assert !OccursAt(a, Delimiter, j);
      } else {
        assert s[j..j + 3][|a| - 1 - j] == a[|a| - 1] != Delimiter[|a| - 1 - j];
      }
    }
    assert IndexOf(s, Delimiter) == Some(|a|);
    assert s[..|a|] == a;
    assert s[|a| + 3..] == b;
  }

  /** A text in which `pat` occurs splits into at least two parts. */
  lemma SplitsWhenContains(s: string)
    requires Contains(s, Delimiter)
    ensures |Split(s, Delimiter)| >= 2
  {
  }

  lemma Regroup3(a: string, b: string, c: string, d: string, e: string)
    ensures a + b + c + d + e == a + b + (c + d + e)
  {
  }

  /** The first part of a text with two delimiters after `lead` is `lead`. */
  lemma SplitFirst(lead: string, header: string, body: string)
    requires Delimits(lead)
    ensures Split(lead + Delimiter + header + Delimiter + body, Delimiter)
         == [lead] + Split(header + Delimiter + body, Delimiter)
  {
    Regroup3(lead, Delimiter, header, Delimiter, body);
    SplitAtDelimiter(lead, header + Delimiter + body);
  }

  /** Two leading sections, each followed by the delimiter, are the first two parts. */
  lemma SplitTwice(lead: string, header: string, body: string)
    requires Delimits(lead) && Delimits(header)
    ensures Split(lead + Delimiter + header + Delimiter + body, Delimiter)
         == [lead, header] + Split(body, Delimiter)
  {
    SplitFirst(lead, header, body);
    SplitAtDelimiter(header, body);
    var rest := Split(body, Delimiter);
    assert [lead] + ([header] + rest) == [lead, header] + rest;
  }

  /**
   * A file written as prefix, delimiter, header, delimiter, body: the prefix is
   * dropped, the trimmed header is decoded (`{}` if blank) and the trimmed body
   * kept — unless the body itself contains the delimiter, which rejects the file.
   */
  lemma {:induction false} FrontmatterFile(lead: string, header: string, body: string)
    requires Delimits(lead) && Delimits(header)
    ensures SplitFile(lead + Delimiter + header + Delimiter + body) ==
      if Contains(body, Delimiter) then Err(FormatError)
      else Ok(Sections(HeaderText(header), Trim(body)))
  {
    var text := lead + Delimiter + header + Delimiter + body;
    SplitTwice(lead, header, body);
    var parts := Split(text, Delimiter);
    if Contains(body, Delimiter) {
      SplitsWhenContains(body);
      assert |parts| >= 4;
    } else {
      assert |parts| == 3;
    }
  }

  /** A header containing the delimiter adds at least one more part. */
  lemma {:induction false} SplitsThrice(header: string, body: string)
    requires Contains(header, Delimiter)
    ensures |Split(header + Delimiter + body, Delimiter)| >= 3
  {
    var x := header + Delimiter + body;
    var j: nat :| j <= |header| && OccursAt(header, Delimiter, j);
    assert x == [] + header + (Delimiter + body);
    OccursInside([], header, Delimiter + body, Delimiter, j);
    var i := IndexOf(x, Delimiter).value;
    var rest := x[i + 3..];
    assert rest == x[i + 3..|header|] + Delimiter + body;
    OccursInside(x[i + 3..|header|], Delimiter, body, Delimiter, 0);
    SplitsWhenContains(rest);
  }

  /** A header that itself contains the delimiter rejects the file. */
  lemma {:induction false} DelimiterInHeader(lead: string, header: string, body: string)
    requires Delimits(lead) && Contains(header, Delimiter)
    ensures SplitFile(lead + Delimiter + header + Delimiter + body) == Err(FormatError)
  {
    var x := header + Delimiter + body;
    assert lead + Delimiter + header + Delimiter + body == lead + Delimiter + x;
    SplitAtDelimiter(lead, x);
    SplitsThrice(header, body);
  }

  /**
   * `read_markdown_file` on the file's text: split, decode the header at the
   * requested type, and attach the body as a `markdown` document exactly when
   * it is not empty, replacing any document the header gave.
   */
  function ReadMarkdown(dec: Decoder, kind: Kind, text: string): (r: Result<Node, Error>)
    ensures r.Err? ==> r.error == FormatError || r.error == Panic(DecodeError)
    ensures r.Ok? ==> r.value.Kind() == kind
    ensures r == Err(FormatError) <==> SplitFile(text).Err?
  {
    var sections :- SplitFile(text);
    var decoded :- Decode(dec, kind, sections.frontmatter);
    Ok(if sections.body != [] then AddedDoc(decoded, "markdown", sections.body) else decoded)
  }

  /**
   * The document of a read node: the trimmed body as `markdown` when there is
   * one, else whatever the header decoded to; no other field is touched.
   */
  lemma DocAttachment(dec: Decoder, kind: Kind, text: string)
    requires SplitFile(text).Ok?
    ensures var s := SplitFile(text).value;
      && (ReadMarkdown(dec, kind, text).Ok? <==> Decode(dec, kind, s.frontmatter).Ok?)
      && (ReadMarkdown(dec, kind, text).Ok? ==>
            var n := ReadMarkdown(dec, kind, text).value;
            var decoded := Decode(dec, kind, s.frontmatter).value;
            && n.WithDoc(None) == decoded.WithDoc(None)
            && (s.body != [] ==> n.GetDoc() == Some(Doc("markdown", s.body)))
            && (s.body == [] ==> n.GetDoc() == decoded.GetDoc()))
  {
  }

  /** `read_markdown_file`, with the node held in a mutable variable. */
  method ReadMarkdownFile(dec: Decoder, kind: Kind, text: string) returns (r: Result<Node, Error>)
    ensures r == ReadMarkdown(dec, kind, text)
  {
    var parts := Split(text, Delimiter);
    var frontmatter: string;
    var body: string;
    if |parts| == 1 {
      frontmatter, body := "{}", Trim(parts[0]);
    } else if |parts| == 3 {
      var header := Trim(parts[1]);
      frontmatter := if header == [] then "{}" else header;
      body := Trim(parts[2]);
    } else {
      return Err(FormatError);
    }
    var decoded := Decode(dec, kind, frontmatter);
    if decoded.Err? {
      return Err(decoded.error);
    }
    var result := new Builder(decoded.value);
    if body != [] {
      result.AddDoc("markdown", body);
    }
    r := Ok(result.Value());
  }

  /**
   * `Descriptor::from_file`: the descriptor read from the file, with the file
   * stem as its id when the header gave none and the stem does not start with
   * `_`. Failures of `read_markdown_file` panic.
   */
  function FromFile(dec: Decoder, stem: string, text: string): (r: Result<Descriptor, Error>)
    ensures r.Ok? <==> ReadMarkdown(dec, DescriptorKind, text).Ok?
    ensures r.Err? ==> r.error.Panic?
  {
    var n :- Unwrapped(ReadMarkdown(dec, DescriptorKind, text));
    var d := n.desc;
    Ok(if !StartsWith(stem, "_") && d.id.None? then d.(id := Some(stem)) else d)
  }

  /**
   * Id precedence: an id from the header is kept, a stem starting with `_`
   * leaves the id as decoded, and otherwise a missing id becomes the stem.
   * No other field differs from the node `read_markdown_file` produced.
   */
  lemma IdFromStem(dec: Decoder, stem: string, text: string)
    requires ReadMarkdown(dec, DescriptorKind, text).Ok?
    ensures var decoded := ReadMarkdown(dec, DescriptorKind, text).value.desc;
      var d := FromFile(dec, stem, text).value;
      && d.(id := decoded.id) == decoded
      && (decoded.id.Some? ==> d.id == decoded.id)
      && (StartsWith(stem, "_") ==> d.id == decoded.id)
      && (!StartsWith(stem, "_") && decoded.id.None? ==> d.id == Some(stem))
  {
  }

  /** `Descriptor::from_file`, reassigning the id of the descriptor it read. */
  method DescriptorFromFile(dec: Decoder, stem: string, text: string) returns (r: Result<Descriptor, Error>)
    ensures r == FromFile(dec, stem, text)
  {
    var read := ReadMarkdownFile(dec, DescriptorKind, text);
    if read.Err? {
      return Err(Unwrapped(read).error);
    }
    var descriptor := read.value.desc;
    if !StartsWith(stem, "_") {
      if descriptor.id.None? {
        descriptor := descriptor.(id := Some(stem));
      }
    }
    r := Ok(descriptor);
  }

  /** `T::from_file` for either node type, given the file's stem and text. */
  function NodeFromFile(dec: Decoder, kind: Kind, stem: string, text: string): (r: Result<Node, Error>)
    ensures r.Ok? ==> r.value.Kind() == kind
    ensures r.Err? ==> r.error.Panic?
  {
    match kind
    case RootKind => Unwrapped(ReadMarkdown(dec, RootKind, text))
    case DescriptorKind =>
      var d :- FromFile(dec, stem, text);
      Ok(Desc(d))
  }

  /** `T::from_file`, dispatched on the node type. */
  method LoadNode(dec: Decoder, kind: Kind, stem: string, text: string) returns (r: Result<Node, Error>)
    ensures r == NodeFromFile(dec, kind, stem, text)
  {
    match kind
    case RootKind =>
      var alps := ReadMarkdownFile(dec, RootKind, text);
      r := Unwrapped(alps);
    case DescriptorKind =>
      var descriptor := DescriptorFromFile(dec, stem, text);
      if descriptor.Err? {
        return Err(descriptor.error);
      }
      r := Ok(Desc(descriptor.value));
  }
}
