/**
 * The text side of the `descriptor` command: the frontmatter assembled from
 * the prompt answers and the content of the stub file it writes.
 */
module Scaffold {
  import opened Results
  import opened Text
  import opened Tree
  import opened Markdown

  /** The answers to the six prompts, as typed (empty when skipped). */
  datatype Answers = Answers(name: string, title: string, def: string, href: string, rel: string, tag: string)

  /** The header keys, in the order they are asked for and written. */
  const Keys: seq<string> := ["name", "title", "def", "href", "rel", "tag"]

  function Values(a: Answers): (vs: seq<string>)
    ensures |vs| == |Keys|
  {
    [a.name, a.title, a.def, a.href, a.rel, a.tag]
  }

  /** The line for one key: `key: value`, or none when the answer is empty. */
  function Line(key: string, value: string): (r: seq<string>)
    ensures |r| <= 1 && (r == [] <==> value == "")
    ensures r != [] ==> r[0] == key + ": " + value
  {
    if value == "" then [] else [key + ": " + value]
  }

  /** One `key: value` line for every non-empty value, in key order. */
  function Lines(keys: seq<string>, values: seq<string>): (r: seq<string>)
    requires |keys| == |values|
    ensures |r| <= |keys|
  {
    if keys == [] then [] else Line(keys[0], values[0]) + Lines(keys[1..], values[1..])
  }

  /** The lines from key `i` on: that key's line, then the rest. */
  lemma LinesFrom(keys: seq<string>, values: seq<string>, i: nat)
    requires |keys| == |values| && i < |keys|
    ensures Lines(keys[i..], values[i..]) == Line(keys[i], values[i]) + Lines(keys[i + 1..], values[i + 1..])
  {
    assert keys[i..][1..] == keys[i + 1..];
    assert values[i..][1..] == values[i + 1..];
  }

  /** The lines of the six answers, key by key. */
  lemma LinesOfAnswers(a: Answers)
    ensures Lines(Keys, Values(a)) ==
      Line("name", a.name) + Line("title", a.title) + Line("def", a.def)
      + Line("href", a.href) + Line("rel", a.rel) + Line("tag", a.tag)
  {
    var ks, vs := Keys, Values(a);
    var l0, l1, l2, l3, l4, l5 := Line("name", a.name), Line("title", a.title), Line("def", a.def),
      Line("href", a.href), Line("rel", a.rel), Line("tag", a.tag);
    assert Lines(ks[5..], vs[5..]) == l5 by {
      LinesFrom(ks, vs, 5);
      assert Lines(ks[6..], vs[6..]) == [];
    }
    assert Lines(ks[4..], vs[4..]) == l4 + l5 by {
      LinesFrom(ks, vs, 4);
    }
    assert Lines(ks[3..], vs[3..]) == l3 + (l4 + l5) by {
      LinesFrom(ks, vs, 3);
    }
    assert Lines(ks[2..], vs[2..]) == l2 + (l3 + (l4 + l5)) by {
      LinesFrom(ks, vs, 2);
    }
    assert Lines(ks[1..], vs[1..]) == l1 + (l2 + (l3 + (l4 + l5))) by {
      LinesFrom(ks, vs, 1);
    }
    assert Lines(ks, vs) == l0 + (l1 + (l2 + (l3 + (l4 + l5)))) by {
      LinesFrom(ks, vs, 0);
      assert ks[0..] == ks && vs[0..] == vs;
    }
    Associate(l0, l1, l2 + (l3 + (l4 + l5)));
    Associate(l0 + l1, l2, l3 + (l4 + l5));
    Associate(l0 + l1 + l2, l3, l4 + l5);
    Associate(l0 + l1 + l2 + l3, l4, l5);
  }

  /**
   * The frontmatter of a prompted descriptor: its lines joined by newlines.
   * It is empty exactly when every answer is.
   */
  function Frontmatter(a: Answers): (r: string)
    ensures r == "" <==> forall v :: v in Values(a) ==> v == ""
  {
    JoinedLinesEmpty(a);
    Join(Lines(Keys, Values(a)), "\n")
  }

  /** The frontmatter the command assembles: pushed line by line, only when prompting. */
  method AssembleFrontmatter(prompt: bool, a: Answers) returns (frontmatter: string)
    ensures frontmatter == if prompt then Frontmatter(a) else ""
  {
    var lines: seq<string> := [];
    if prompt {
      assert "name" + ": " == "name: " && "title" + ": " == "title: " && "def" + ": " == "def: ";
      assert "href" + ": " == "href: " && "rel" + ": " == "rel: " && "tag" + ": " == "tag: ";
      if a.name != "" {
        lines := lines + ["name: " + a.name];
      }
      assert lines == Line("name", a.name);
      if a.title != "" {
        lines := lines + ["title: " + a.title];
      }
      assert lines == Line("name", a.name) + Line("title", a.title);
      if a.def != "" {
        lines := lines + ["def: " + a.def];
      }
      assert lines == Line("name", a.name) + Line("title", a.title) + Line("def", a.def);
      if a.href != "" {
        lines := lines + ["href: " + a.href];
      }
      assert lines == Line("name", a.name) + Line("title", a.title) + Line("def", a.def)
        + Line("href", a.href);
      if a.rel != "" {
        lines := lines + ["rel: " + a.rel];
      }
      assert lines == Line("name", a.name) + Line("title", a.title) + Line("def", a.def)
        + Line("href", a.href) + Line("rel", a.rel);
      if a.tag != "" {
        lines := lines + ["tag: " + a.tag];
      }
      assert lines == Line("name", a.name) + Line("title", a.title) + Line("def", a.def)
        + Line("href", a.href) + Line("rel", a.rel) + Line("tag", a.tag);
      LinesOfAnswers(a);
    }
    frontmatter := Join(lines, "\n");
  }

  /**
   * The content `create_descriptor` writes for a new descriptor file: a
   * delimiter line, the frontmatter's own line when there is one, a second
   * delimiter line and an empty line.
   */
  function StubContent(frontmatter: string): (r: string)
    ensures frontmatter == "" ==> r == [] + Delimiter + "\n" + Delimiter + "\n\n"
    ensures frontmatter != "" ==> r == [] + Delimiter + ("\n" + frontmatter + "\n") + Delimiter + "\n\n"
  {
    if frontmatter == "" then "---\n---\n\n" else "---\n" + frontmatter + "\n---\n\n"
  }

  /** Every line has the form `key: value` and none is empty. */
  lemma {:induction false} LinesShape(keys: seq<string>, values: seq<string>)
    requires |keys| == |values|
    ensures forall l :: l in Lines(keys, values) ==>
      exists i :: 0 <= i < |keys| && values[i] != "" && l == keys[i] + ": " + values[i]
  {
    if keys != [] {
      LinesShape(keys[1..], values[1..]);
      forall l | l in Lines(keys, values)
        ensures exists i :: 0 <= i < |keys| && values[i] != "" && l == keys[i] + ": " + values[i]
      {
        if l !in Lines(keys[1..], values[1..]) {
          assert values[0] != "" && l == keys[0] + ": " + values[0];
        } else {
          var i :| 0 <= i < |keys| - 1 && values[1..][i] != "" && l == keys[1..][i] + ": " + values[1..][i];
          assert values[i + 1] != "" && l == keys[i + 1] + ": " + values[i + 1];
        }
      }
    }
  }

  /** The lines are exactly one per non-empty value. */
  lemma {:induction false} LinesCount(keys: seq<string>, values: seq<string>)
    requires |keys| == |values|
    ensures Lines(keys, values) == [] <==> forall v :: v in values ==> v == ""
  {
    if keys != [] {
      LinesCount(keys[1..], values[1..]);
      if values[0] == "" {
        assert Lines(keys, values) == Lines(keys[1..], values[1..]);
        assert values == [values[0]] + values[1..];
        assert forall v :: v in values <==> v == values[0] || v in values[1..];
      } else {
        assert Lines(keys, values)[0] == keys[0] + ": " + values[0];
        assert values[0] in values;
      }
    }
  }

  /** The joined lines are empty exactly when every answer is empty. */
  lemma JoinedLinesEmpty(a: Answers)
    ensures Join(Lines(Keys, Values(a)), "\n") == "" <==> forall v :: v in Values(a) ==> v == ""
  {
    var lines := Lines(Keys, Values(a));
    LinesCount(Keys, Values(a));
    if lines != [] {
      LinesShape(Keys, Values(a));
      assert lines[0] in lines;
      assert |Join(lines, "\n")| >= |lines[0]| > 0;
    }
  }

  /** A string without `-` does not contain the delimiter. */
  lemma NoDash(s: string)
    requires forall i :: 0 <= i < |s| ==> s[i] != '-'
    ensures !Contains(s, Delimiter)
  {
    forall i: nat | i + 3 <= |s|
      ensures !OccursAt(s, Delimiter, i)
    {
      assert s[i..i + 3][0] == s[i] != Delimiter[0];
    }
  }

  /** Joining two delimiter-free strings only creates one across a `-`/`-` seam. */
  lemma ConcatNoDelimiter(x: string, y: string)
    requires !Contains(x, Delimiter) && !Contains(y, Delimiter)
    requires x == [] || y == [] || x[|x| - 1] != '-' || y[0] != '-'
    ensures !Contains(x + y, Delimiter)
  {
    var s := x + y;
    forall j: nat | j + 3 <= |s|
      ensures !OccursAt(s, Delimiter, j)
    {
      if j + 3 <= |x| {
        assert s == [] + x + y;
        OccursInside([], x, y, Delimiter, j);
      } else if |x| <= j {
        assert s == x + y + [];
        OccursInside(x, y, [], Delimiter, j - |x|);
      } else if x[|x| - 1] != '-' {
        assert s[j..j + 3][|x| - 1 - j] == x[|x| - 1] != Delimiter[|x| - 1 - j];
      } else {
        assert s[j..j + 3][|x| - j] == y[0] != Delimiter[|x| - j];
      }
    }
  }

  /** A line for a value without the delimiter has none. */
  lemma LineNoDelimiter(key: string, value: string)
    requires key in Keys && !Contains(value, Delimiter)
    ensures !Contains(key + ": " + value, Delimiter)
  {
    NoDash(key + ": ");
    ConcatNoDelimiter(key + ": ", value);
  }

  /** Lines joined by newlines contain the delimiter only if a line does. */
  lemma {:induction false} JoinNoDelimiter(lines: seq<string>)
    requires forall l :: l in lines ==> !Contains(l, Delimiter)
    ensures !Contains(Join(lines, "\n"), Delimiter)
  {
    if |lines| > 1 {
      JoinNoDelimiter(lines[1..]);
      NoDash("\n");
      ConcatNoDelimiter(lines[0], "\n");
      ConcatNoDelimiter(lines[0] + "\n", Join(lines[1..], "\n"));
    }
  }

  /** A line containing the delimiter puts it into the joined text. */
  lemma {:induction false} JoinContains(lines: seq<string>, k: nat)
    requires k < |lines| && Contains(lines[k], Delimiter)
    ensures Contains(Join(lines, "\n"), Delimiter)
  {
    var j: nat :| j <= |lines[k]| && OccursAt(lines[k], Delimiter, j);
    if |lines| == 1 {
    } else if k == 0 {
      OccursInside([], lines[0], "\n" + Join(lines[1..], "\n"), Delimiter, j);
      assert Join(lines, "\n") == [] + lines[0] + ("\n" + Join(lines[1..], "\n"));
    } else {
      JoinContains(lines[1..], k - 1);
      var rest := Join(lines[1..], "\n");
      var i: nat :| i <= |rest| && OccursAt(rest, Delimiter, i);
      OccursInside(lines[0] + "\n", rest, [], Delimiter, i);
      assert Join(lines, "\n") == lines[0] + "\n" + rest + [];
    }
  }

  /** The line of a value containing the delimiter is among the lines. */
  lemma {:induction false} LineOf(keys: seq<string>, values: seq<string>, i: nat) returns (k: nat)
    requires |keys| == |values| && i < |values| && values[i] != ""
    ensures k < |Lines(keys, values)| && Lines(keys, values)[k] == keys[i] + ": " + values[i]
  {
    if i == 0 {
      k := 0;
    } else {
      var k' := LineOf(keys[1..], values[1..], i - 1);
      k := k' + (if values[0] == "" then 0 else 1);
    }
  }

  /** The frontmatter contains the delimiter exactly when one of the answers does. */
  lemma FrontmatterDelimiter(a: Answers)
    ensures Contains(Frontmatter(a), Delimiter)
        <==> exists v :: v in Values(a) && Contains(v, Delimiter)
  {
    var vs := Values(a);
    var lines := Lines(Keys, vs);
    if exists v :: v in vs && Contains(v, Delimiter) {
      var v :| v in vs && Contains(v, Delimiter);
      var i :| 0 <= i < |vs| && vs[i] == v;
      var k := LineOf(Keys, vs, i);
      var j: nat :| j <= |v| && OccursAt(v, Delimiter, j);
      OccursInside(Keys[i] + ": ", v, [], Delimiter, j);
      assert lines[k] == Keys[i] + ": " + v + [];
      JoinContains(lines, k);
    } else {
      LinesShape(Keys, vs);
      forall l | l in lines
        ensures !Contains(l, Delimiter)
      {
        var i :| 0 <= i < |Keys| && vs[i] != "" && l == Keys[i] + ": " + vs[i];
        assert vs[i] in vs;
        LineNoDelimiter(Keys[i], vs[i]);
      }
      JoinNoDelimiter(lines);
    }
  }

  /** The newlines around a stub's frontmatter and body trim away. */
  lemma NewlinesTrim()
    ensures Trim("\n") == [] && Trim("\n\n") == []
  {
    assert Blank("\n") by {
      assert "\n"[0] == '\n';
    }
    assert Blank("\n\n") by {
      assert "\n\n"[0] == '\n' && "\n\n"[1] == '\n';
    }
  }

  /** The stub without frontmatter: two delimiters and blank lines. */
  lemma EmptyStubSplits()
    ensures SplitFile(StubContent("")) == Ok(Sections("{}", ""))
  {
    NoDash("\n");
    NoDash("\n\n");
    assert StubContent("") == [] + Delimiter + "\n" + Delimiter + "\n\n";
    FrontmatterFile([], "\n", "\n\n");
    NewlinesTrim();
  }

  /** The header of a stub with frontmatter has no delimiter and does not end in `-`. */
  lemma StubHeader(frontmatter: string)
    requires !Contains(frontmatter, Delimiter)
    ensures Delimits("\n" + frontmatter + "\n")
  {
    NoDash("\n");
    ConcatNoDelimiter("\n", frontmatter);
    ConcatNoDelimiter("\n" + frontmatter, "\n");
  }

  /**
   * A stub splits into its frontmatter (`{}` when blank) and an empty body,
   * provided the frontmatter does not contain the delimiter.
   */
  lemma StubSplits(frontmatter: string)
    requires !Contains(frontmatter, Delimiter)
    ensures SplitFile(StubContent(frontmatter)) == Ok(Sections(HeaderText(frontmatter), ""))
  {
    if frontmatter == "" {
      EmptyStubSplits();
      assert Trim("") == "";
    } else {
      var header := "\n" + frontmatter + "\n";
      StubHeader(frontmatter);
      NoDash("\n\n");
      FrontmatterFile([], header, "\n\n");
      NewlinesTrim();
      TrimWrapped("\n", frontmatter, "\n");
    }
  }

  /** A stub whose frontmatter contains the delimiter cannot be read back. */
  lemma StubRejected(frontmatter: string)
    requires Contains(frontmatter, Delimiter)
    ensures SplitFile(StubContent(frontmatter)) == Err(FormatError)
  {
    var header := "\n" + frontmatter + "\n";
    var j: nat :| j <= |frontmatter| && OccursAt(frontmatter, Delimiter, j);
    OccursInside("\n", frontmatter, "\n", Delimiter, j);
    DelimiterInHeader([], header, "\n\n");
  }

  /**
   * Reading a stub back gives the node its frontmatter decodes to, with no
   * document attached, whichever node type it is read as.
   */
  lemma StubHasNoDoc(dec: Decoder, kind: Kind, frontmatter: string)
    requires !Contains(frontmatter, Delimiter)
    ensures ReadMarkdown(dec, kind, StubContent(frontmatter)) == Decode(dec, kind, HeaderText(frontmatter))
  {
    StubSplits(frontmatter);
  }

  /**
   * The stub written for prompt answers is readable exactly when no answer
   * contains `---`; then its header is the trimmed frontmatter and its body empty.
   */
  lemma ScaffoldedStub(a: Answers)
    ensures SplitFile(StubContent(Frontmatter(a))) ==
      if exists v :: v in Values(a) && Contains(v, Delimiter) then Err(FormatError)
      else Ok(Sections(HeaderText(Frontmatter(a)), ""))
  {
    FrontmatterDelimiter(a);
    if Contains(Frontmatter(a), Delimiter) {
      StubRejected(Frontmatter(a));
    } else {
      StubSplits(Frontmatter(a));
    }
  }

  /**
   * `read_markdown_file` rejects the stub written for prompt answers with the
   * format error exactly when some answer contains `---`.
   */
  lemma StubUnreadable(dec: Decoder, kind: Kind, a: Answers)
    ensures ReadMarkdown(dec, kind, StubContent(Frontmatter(a))) == Err(FormatError)
        <==> exists v :: v in Values(a) && Contains(v, Delimiter)
  {
    ScaffoldedStub(a);
  }

  /**
   * The stub of a descriptor created without prompting reads back, given a
   * decoder that reads `{}` as no keys, as a descriptor whose only field is
   * the id taken from the file name.
   */
  lemma EmptyStub(dec: Decoder, stem: string)
    requires dec(DescriptorKind, "{}") == Some(EmptyHeader())
    requires !StartsWith(stem, "_")
    ensures FromFile(dec, stem, StubContent("")) ==
      Ok(Descriptor(Some(stem), None, None, None, None, None, None, None, None, None, None, None))
  {
    NoDash("");
    StubHasNoDoc(dec, DescriptorKind, "");
    assert Trim("") == "";
  }
}
