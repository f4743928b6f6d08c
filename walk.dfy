/**
 * `walk_profile`: turning a profile directory into a node. The directory is
 * its list of entries in the order the filesystem yields them.
 */
module Walk {
  import opened Results
  import opened Text
  import opened Tree
  import opened Markdown

  /** The file every directory level needs; it supplies the node's own fields. */
  const IndexName: string := "index.md"

  const MarkdownExtension: string := ".md"

  /** A directory entry: a file with its text, or a subdirectory. */
  datatype Entry = File(name: string, content: string) | Folder(dir: Dir) {
    function Name(): string {
      match this
      case File(name, _) => name
      case Folder(dir) => dir.name
    }
  }

  datatype Dir = Dir(name: string, entries: seq<Entry>)

  /**
   * `T::from_file` for either node type: given the type asked for, the file's
   * stem and its text, the node read or the failure.
   */
  type Reader = (Kind, string, string) -> Result<Node, Error>

  /** What every `from_file` promises: a node of the type asked for, or a panic. */
  ghost predicate ReadsKind(read: Reader) {
    forall kind, stem, text ::
      && (read(kind, stem, text).Ok? ==> read(kind, stem, text).value.Kind() == kind)
      && (read(kind, stem, text).Err? ==> read(kind, stem, text).error.Panic?)
  }

  /** The program's `from_file`: `Alps::from_file` and `Descriptor::from_file` over a YAML decoder. */
  function FromFiles(dec: Decoder): (read: Reader)
    ensures ReadsKind(read)
  {
    (kind, stem, text) => NodeFromFile(dec, kind, stem, text)
  }

  /** The entry `index.md` names, if any (`Path::exists` on it). */
  function FindIndex(entries: seq<Entry>): (r: Option<Entry>)
    ensures r.None? <==> forall e :: e in entries ==> e.Name() != IndexName
    ensures r.Some? ==> r.value in entries && r.value.Name() == IndexName
  {
    if entries == [] then None
    else if entries[0].Name() == IndexName then Some(entries[0])
    else FindIndex(entries[1..])
  }

  /** `T::from_file` on `index.md`; a directory of that name cannot be read. */
  function IndexNode(read: Reader, kind: Kind, index: Entry): (r: Result<Node, Error>)
    requires ReadsKind(read)
    ensures r.Ok? ==> r.value.Kind() == kind
    ensures r.Err? ==> r.error.Panic?
  {
    match index
    case File(name, content) => read(kind, FileStem(name), content)
    case Folder(_) => Err(Panic(ReadError))
  }

  /** The entries that become children: `*.md` files other than `index.md`, and subdirectories. */
  predicate IsChildEntry(e: Entry) {
    e.Name() != IndexName && (e.Folder? || EndsWith(e.name, MarkdownExtension))
  }

  /** The entries of `es` that become children, in order. */
  function ChildEntries(es: seq<Entry>): (cs: seq<Entry>)
    ensures |cs| <= |es|
    ensures forall e :: e in cs ==> e in es && IsChildEntry(e)
    ensures forall e :: e in es && IsChildEntry(e) ==> e in cs
  {
    if es == [] then []
    else
      var last := es[|es| - 1];
      assert es == es[..|es| - 1] + [last];
      ChildEntries(es[..|es| - 1]) + (if IsChildEntry(last) then [last] else [])
  }

  /**
   * Filtering keeps the order of the entries: the child entries of two runs of
   * entries are those of the first followed by those of the second.
   */
  lemma {:induction false} ChildEntriesConcat(a: seq<Entry>, b: seq<Entry>)
    ensures ChildEntries(a + b) == ChildEntries(a) + ChildEntries(b)
    decreases |b|
  {
    if b == [] {
      assert a + b == a;
      assert ChildEntries(a) + [] == ChildEntries(a);
    } else {
      var init, last := b[..|b| - 1], b[|b| - 1];
      assert (a + b)[..|a + b| - 1] == a + init;
      assert (a + b)[|a + b| - 1] == last;
      ChildEntriesConcat(a, init);
      var tail := if IsChildEntry(last) then [last] else [];
      Associate(ChildEntries(a), ChildEntries(init), tail);
    }
  }

  /** One entry is a child entry of its own exactly when it becomes one. */
  lemma ChildEntriesOne(e: Entry)
    ensures ChildEntries([e]) == if IsChildEntry(e) then [e] else []
  {
    assert [e][..0] == [];
  }

  /**
   * `walk_profile::<T>`: the node read from `index.md`, with a child for every
   * child entry appended in entry order. Only a missing `index.md` at this
   * level is returned as a failure; every failure below it is an `unwrap`.
   */
  function WalkProfile(read: Reader, d: Dir, kind: Kind): (r: Result<Node, Error>)
    requires ReadsKind(read)
    ensures r.Ok? ==> r.value.Kind() == kind
    ensures r.Err? ==> r.error == NoIndex || r.error.Panic?
    decreases d, |d.entries| + 1
  {
    match FindIndex(d.entries)
    case None => Err(NoIndex)
    case Some(index) =>
      var main :- IndexNode(read, kind, index);
      AddEntries(read, main, d, |d.entries|)
  }

  /** The `for` loop of `walk_profile` after its first `k` entries. */
  function AddEntries(read: Reader, main: Node, d: Dir, k: nat): (r: Result<Node, Error>)
    requires ReadsKind(read) && k <= |d.entries|
    ensures r.Ok? ==> r.value.Kind() == main.Kind()
    ensures r.Err? ==> r.error.Panic?
    decreases d, k
  {
    if k == 0 then Ok(main)
    else
      var acc :- AddEntries(read, main, d, k - 1);
      var e := d.entries[k - 1];
      if IsChildEntry(e) then
        var child :- ChildOf(read, e);
        Ok(AddedDescriptor(acc, child))
      else
        Ok(acc)
  }

  /**
   * The descriptor a child entry becomes: a file is read by
   * `Descriptor::from_file`; a subdirectory is walked as a descriptor and then
   * takes the directory's name as its id, whatever its `index.md` said.
   */
  function ChildOf(read: Reader, e: Entry): (r: Result<Descriptor, Error>)
    requires ReadsKind(read)
    ensures r.Err? ==> r.error.Panic?
    ensures e.Folder? && r.Ok? ==> r.value.id == Some(e.dir.name)
    decreases e
  {
    match e
    case File(name, content) =>
      var n :- read(DescriptorKind, FileStem(name), content);
      Ok(n.desc)
    case Folder(sub) =>
      var walked :- Unwrapped(WalkProfile(read, sub, DescriptorKind));
      Ok(walked.desc.(id := Some(sub.name)))
  }

  /**
   * A subdirectory becomes the descriptor its own walk produces, with the
   * directory's name as its id in place of whatever id that walk gave it.
   */
  lemma DirectoryChild(read: Reader, sub: Dir)
    requires ReadsKind(read)
    ensures ChildOf(read, Folder(sub)).Ok? <==> WalkProfile(read, sub, DescriptorKind).Ok?
    ensures ChildOf(read, Folder(sub)).Ok? ==>
      var walked := WalkProfile(read, sub, DescriptorKind).value.desc;
      var child := ChildOf(read, Folder(sub)).value;
      child.id == Some(sub.name) && child.(id := walked.id) == walked
  {
  }

  /** `build_profile` up to serialization: the walked root in its envelope. */
  function BuildProfile(dec: Decoder, d: Dir): (r: Result<AlpsDocument, Error>)
    ensures r.Ok? <==> WalkProfile(FromFiles(dec), d, RootKind).Ok?
    ensures r.Ok? ==> r.value.alps == WalkProfile(FromFiles(dec), d, RootKind).value.alps
    ensures r.Err? ==> r.error.Panic?
  {
    var root :- Unwrapped(WalkProfile(FromFiles(dec), d, RootKind));
    Ok(AlpsDocument(root.alps))
  }

  /** Once an entry fails, the walk's result is that failure. */
  lemma {:induction false} FailureSticks(read: Reader, main: Node, d: Dir, k: nat, k': nat)
    requires ReadsKind(read)
    requires k <= k' <= |d.entries|
    requires AddEntries(read, main, d, k).Err?
    ensures AddEntries(read, main, d, k') == AddEntries(read, main, d, k)
    decreases k' - k
  {
    if k < k' {
      FailureSticks(read, main, d, k, k' - 1);
    }
  }

  /**
   * A walk fails with the missing-index error exactly when the directory has
   * no `index.md`; its message is the one the source returns.
   */
  lemma MissingIndex(read: Reader, d: Dir, kind: Kind)
    requires ReadsKind(read)
    ensures WalkProfile(read, d, kind) == Err(NoIndex)
        <==> forall e :: e in d.entries ==> e.Name() != IndexName
    ensures Message(NoIndex) == Some("No index found in profile directory")
  {
  }

  /**
   * `node` is `self` with one child per entry of `cs` appended, in order, each
   * the result of `ChildOf`; the children `self` already had come first and
   * nothing else differs. Without child entries `node` is `self` itself.
   */
  predicate Appended(read: Reader, self: Node, cs: seq<Entry>, node: Node)
    requires ReadsKind(read)
  {
    var n := |self.ChildList()|;
    && node.WithChildren(None) == self.WithChildren(None)
    && |node.ChildList()| == n + |cs|
    && node.ChildList()[..n] == self.ChildList()
    && (forall i :: 0 <= i < |cs| ==> ChildOf(read, cs[i]) == Ok(node.ChildList()[n + i]))
    && (cs == [] ==> node == self)
  }

  /** Appending the child of one more child entry keeps `Appended`. */
  lemma AppendedStep(read: Reader, self: Node, cs: seq<Entry>, acc: Node, e: Entry, child: Descriptor)
    requires ReadsKind(read)
    requires Appended(read, self, cs, acc)
    requires ChildOf(read, e) == Ok(child)
    ensures Appended(read, self, cs + [e], AddedDescriptor(acc, child))
  {
    var n := |self.ChildList()|;
    var m := AddedDescriptor(acc, child);
    var cs' := cs + [e];
    assert m.ChildList() == acc.ChildList() + [child];
    assert m.ChildList()[..n] == self.ChildList() by {
      assert m.ChildList()[..n] == acc.ChildList()[..n];
    }
    assert m.WithChildren(None) == self.WithChildren(None);
    forall i | 0 <= i < |cs'|
      ensures ChildOf(read, cs'[i]) == Ok(m.ChildList()[n + i])
    {
      if i < |cs| {
        assert cs'[i] == cs[i] && m.ChildList()[n + i] == acc.ChildList()[n + i];
      } else {
        assert cs'[i] == e;
      }
    }
  }

  /** The children the loop appends after `k` entries: one per child entry among them. */
  lemma {:induction false} AddedChildren(read: Reader, main: Node, d: Dir, k: nat)
    requires ReadsKind(read)
    requires k <= |d.entries|
    requires AddEntries(read, main, d, k).Ok?
    ensures Appended(read, main, ChildEntries(d.entries[..k]), AddEntries(read, main, d, k).value)
  {
    if k > 0 {
      AddedChildren(read, main, d, k - 1);
      ChildEntriesStep(d.entries, k);
      var acc := AddEntries(read, main, d, k - 1).value;
      var e := d.entries[k - 1];
      if IsChildEntry(e) {
        AppendedStep(read, main, ChildEntries(d.entries[..k - 1]), acc, e, ChildOf(read, e).value);
      }
    }
  }

  /** The child entries of one more entry: those of the prefix, then that entry if it is one. */
  lemma ChildEntriesStep(es: seq<Entry>, k: nat)
    requires 0 < k <= |es|
    ensures IsChildEntry(es[k - 1]) ==> ChildEntries(es[..k]) == ChildEntries(es[..k - 1]) + [es[k - 1]]
    ensures !IsChildEntry(es[k - 1]) ==> ChildEntries(es[..k]) == ChildEntries(es[..k - 1])
  {
    assert es[..k][..k - 1] == es[..k - 1];
    var cs := ChildEntries(es[..k - 1]);
    assert cs + [] == cs;
  }

  /** Every child entry among the first `k` entries becomes a child without failing. */
  predicate ChildrenRead(read: Reader, d: Dir, k: nat)
    requires ReadsKind(read) && k <= |d.entries|
  {
    forall j :: 0 <= j < k && IsChildEntry(d.entries[j]) ==> ChildOf(read, d.entries[j]).Ok?
  }

  lemma ChildrenReadStep(read: Reader, d: Dir, k: nat)
    requires ReadsKind(read) && 0 < k <= |d.entries|
    ensures ChildrenRead(read, d, k)
        <==> ChildrenRead(read, d, k - 1) && (IsChildEntry(d.entries[k - 1]) ==> ChildOf(read, d.entries[k - 1]).Ok?)
  {
    if ChildrenRead(read, d, k - 1) && (IsChildEntry(d.entries[k - 1]) ==> ChildOf(read, d.entries[k - 1]).Ok?) {
      forall j | 0 <= j < k && IsChildEntry(d.entries[j])
        ensures ChildOf(read, d.entries[j]).Ok?
      {
      }
    }
  }

  /**
   * No partial results: the loop over the first `k` entries succeeds exactly
   * when every child entry among them becomes a child without failing.
   */
  lemma {:induction false} AllOrNothing(read: Reader, main: Node, d: Dir, k: nat)
    requires ReadsKind(read)
    requires k <= |d.entries|
    ensures AddEntries(read, main, d, k).Ok? <==> ChildrenRead(read, d, k)
  {
    if k > 0 {
      AllOrNothing(read, main, d, k - 1);
      ChildrenReadStep(read, d, k);
    }
  }

  /**
   * The failure of the loop is the failure of the first child entry that
   * fails: the loop had succeeded on every entry before it.
   */
  lemma {:induction false} FirstFailure(read: Reader, main: Node, d: Dir, k: nat) returns (j: nat)
    requires ReadsKind(read)
    requires k <= |d.entries|
    requires AddEntries(read, main, d, k).Err?
    ensures j < k && IsChildEntry(d.entries[j])
    ensures ChildOf(read, d.entries[j]) == Err(AddEntries(read, main, d, k).error)
    ensures AddEntries(read, main, d, j).Ok?
  {
    if AddEntries(read, main, d, k - 1).Err? {
      j := FirstFailure(read, main, d, k - 1);
    } else {
      j := k - 1;
    }
  }

  /**
   * A walked node: its own fields come from `index.md`, and its children are
   * those `index.md` declared followed by one per child entry, in entry order.
   */
  lemma WalkedNode(read: Reader, d: Dir, kind: Kind)
    requires ReadsKind(read)
    requires WalkProfile(read, d, kind).Ok?
    ensures FindIndex(d.entries).Some?
    ensures IndexNode(read, kind, FindIndex(d.entries).value).Ok?
    ensures Appended(read, IndexNode(read, kind, FindIndex(d.entries).value).value,
                     ChildEntries(d.entries), WalkProfile(read, d, kind).value)
  {
    var index := FindIndex(d.entries).value;
    var self := IndexNode(read, kind, index).value;
    assert WalkProfile(read, d, kind) == AddEntries(read, self, d, |d.entries|);
    AddedChildren(read, self, d, |d.entries|);
    assert d.entries[..|d.entries|] == d.entries;
  }

  /**
   * When a walk succeeds: `index.md` exists and reads, and so does every child
   * entry. A directory whose `index.md` does not read fails with that failure.
   */
  lemma WalkSucceeds(read: Reader, d: Dir, kind: Kind)
    requires ReadsKind(read)
    ensures WalkProfile(read, d, kind).Ok?
        <==> && FindIndex(d.entries).Some?
             && IndexNode(read, kind, FindIndex(d.entries).value).Ok?
             && ChildrenRead(read, d, |d.entries|)
    ensures FindIndex(d.entries).Some? && IndexNode(read, kind, FindIndex(d.entries).value).Err? ==>
              WalkProfile(read, d, kind) == Err(IndexNode(read, kind, FindIndex(d.entries).value).error)
  {
    if FindIndex(d.entries).Some? && IndexNode(read, kind, FindIndex(d.entries).value).Ok? {
      AllOrNothing(read, IndexNode(read, kind, FindIndex(d.entries).value).value, d, |d.entries|);
    }
  }

  /**
   * A walk whose `index.md` reads but which fails anyway fails with the failure
   * of its first child entry that does not read; every child entry before it reads.
   */
  lemma WalkFailure(read: Reader, d: Dir, kind: Kind) returns (j: nat)
    requires ReadsKind(read)
    requires FindIndex(d.entries).Some? && IndexNode(read, kind, FindIndex(d.entries).value).Ok?
    requires WalkProfile(read, d, kind).Err?
    ensures j < |d.entries| && IsChildEntry(d.entries[j])
    ensures ChildOf(read, d.entries[j]) == Err(WalkProfile(read, d, kind).error)
    ensures ChildrenRead(read, d, j)
  {
    var self := IndexNode(read, kind, FindIndex(d.entries).value).value;
    assert WalkProfile(read, d, kind) == AddEntries(read, self, d, |d.entries|);
    j := FirstFailure(read, self, d, |d.entries|);
    AllOrNothing(read, self, d, j);
  }

  /**
   * A `*.md` file (other than one named just `.md`) becomes the descriptor
   * `Descriptor::from_file` reads from it, with the name minus `.md` as its stem.
   */
  lemma MarkdownFileChild(dec: Decoder, name: string, content: string)
    requires EndsWith(name, MarkdownExtension) && name != MarkdownExtension
    ensures ChildOf(FromFiles(dec), File(name, content)) == FromFile(dec, name[..|name| - 3], content)
  {
    MarkdownStem(name);
  }

  /** `T::from_file` on the `index.md` entry. */
  method ReadIndex(dec: Decoder, kind: Kind, index: Entry) returns (r: Result<Node, Error>)
    ensures r == IndexNode(FromFiles(dec), kind, index)
  {
    if index.Folder? {
      return Err(Panic(ReadError));
    }
    r := LoadNode(dec, kind, FileStem(index.name), index.content);
  }

  /** The loop body's read of one child entry: a file, or a subdirectory walked in turn. */
  method ReadChild(dec: Decoder, entry: Entry) returns (r: Result<Descriptor, Error>)
    ensures r == ChildOf(FromFiles(dec), entry)
    decreases entry
  {
    match entry
    case File(name, content) =>
      r := DescriptorFromFile(dec, FileStem(name), content);
    case Folder(sub) =>
      var walked := Walk(dec, sub, DescriptorKind);
      if walked.Err? {
        return Err(Unwrapped(walked).error);
      }
      var descriptor := walked.value.desc;
      descriptor := descriptor.(id := Some(sub.name));
      r := Ok(descriptor);
  }

  /** `walk_profile`: read `index.md`, then append the children in place. */
  method Walk(dec: Decoder, d: Dir, kind: Kind) returns (r: Result<Node, Error>)
    ensures r == WalkProfile(FromFiles(dec), d, kind)
    decreases d, 1
  {
    var index := FindIndex(d.entries);
    if index.None? {
      return Err(NoIndex);
    }
    var read := ReadIndex(dec, kind, index.value);
    if read.Err? {
      return Err(read.error);
    }
    var main := new Builder(read.value);
    r := AppendChildren(dec, main, d);
  }

  /** The `for` loop of `walk_profile`: each child entry's descriptor is added to `main`. */
  method AppendChildren(dec: Decoder, main: Builder, d: Dir) returns (r: Result<Node, Error>)
    modifies main
    ensures r == AddEntries(FromFiles(dec), old(main.Value()), d, |d.entries|)
    ensures r.Ok? ==> r.value == main.Value()
    decreases d, 0
  {
    ghost var start := main.Value();
    for i := 0 to |d.entries|
      invariant AddEntries(FromFiles(dec), start, d, i) == Ok(main.Value())
    {
      var entry := d.entries[i];
      if !IsChildEntry(entry) {
        continue;
      }
      var child := ReadChild(dec, entry);
      if child.Err? {
        FailureSticks(FromFiles(dec), start, d, i + 1, |d.entries|);
        return Err(child.error);
      }
      main.AddDescriptor(child.value);
    }
    r := Ok(main.Value());
  }
}
