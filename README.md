# alps-writer: the profile-tree assembly, modelled in Dafny

alps-writer builds an ALPS profile from a directory of Markdown files with
YAML frontmatter. This project models the part of `src/main.rs` that does that work:

- **Reading one file** (`read_markdown_file`, `markdown.dfy`). The text is split
  on every occurrence of `---`, left to right and without overlap; the delimiter
  need not stand on its own line. One part means the whole trimmed text is the
  body and the header is `{}`. Three parts mean the first part is dropped, the
  trimmed middle part is the header (`{}` when blank) and the trimmed last part is
  the body. Any other count is the `Can't handle file format` error. A non-empty
  body replaces the node's document with a `markdown` document.
- **The node tree** (`tree.dfy`). The types are `Alps`, `Descriptor`, `Doc`,
  `Link` and `DescriptorType`. A `Node` value stands for either node type of the
  generic code. The `Builder` class is the mutable node that `add_descriptor`
  (append a child, turning `None` into a one-element list) and `add_doc`
  (replace the document) update in place.
- **Id derivation** (`Descriptor::from_file`, `markdown.dfy`). The file stem
  becomes the id when the header gave none and the stem does not start with `_`.
- **The directory walker** (`walk_profile`, `walk.dfy`). A directory is a value
  (`Dir`) holding its entries in the order the filesystem yields them.
  - `index.md` is required and supplies the node itself.
  - Every other `*.md` file becomes a descriptor child.
  - Every subdirectory is walked as a descriptor and takes the directory's name as its id.
  - Other entries are ignored, and children are appended in entry order.
  - `WalkProfile`/`AddEntries`/`ChildOf` are the specification. `Walk`,
    `AppendChildren` and `ReadChild` are the imperative loop over a `Builder`,
    proved equal to it.
  - The walker is stated over any `Reader` (a `from_file` that returns a node
    of the requested type or a panic). `FromFiles` is the program's reader
    built from `read_markdown_file` and `Descriptor::from_file`.
- **The stub of a new descriptor** (`scaffold.dfy`). The prompt answers become
  `key: value` lines in the order name, title, def, href, rel, tag, skipping
  empty ones, joined with newlines. The file content is `---\n---\n\n`, or
  `---\n<frontmatter>\n---\n\n`. The model proves what happens when such a
  stub is read back.

Every `unwrap` on a failure is modelled as `Panic(cause)`. A missing
`index.md` at the top level is the only failure `walk_profile` returns as an
`Err` value; a missing one in a subdirectory panics through `unwrap`. The
format error is returned as an `Err` by `read_markdown_file` and becomes a
panic in `from_file`.

Some consequences of the code that are easy to miss:
- A subdirectory's id is always its name: the walker overwrites any id its
  `index.md` sets (src/main.rs:140).
- A file stem starting with `_` yields no id, but an id from the header is
  kept (src/main.rs:299-303).
- No failure names the file that caused it. The two errors the source writes
  itself are fixed texts (src/main.rs:120, 167). The panics of the YAML
  decoder and of the file read carry those libraries' messages, which are not
  modelled.
- Entries are taken in the order the directory listing gives them; nothing
  sorts them (src/main.rs:124).
- The header delimiter is the substring `---` anywhere in the text. A
  body that contains `---` (a Markdown rule, say) therefore makes the file
  unreadable (`Markdown.FrontmatterFile`). So does a prompt answer
  containing `---` (`Scaffold.StubUnreadable`).

## Model

| member | source | states |
|---|---|---|
| `Text.Trim` | src/main.rs:161-165 | `str::trim`: the result has no whitespace at either end, and it is empty exactly when the text is all whitespace |
| `Text.TrimSplits` | src/main.rs:161-165 | every text is its trimmed form with only whitespace before and after it |
| `Text.TrimWrapped` | src/main.rs:161-165 | extra whitespace around a text does not change what trimming gives |
| `Text.IndexOf` | src/main.rs:157 | the leftmost occurrence of the pattern, or none exactly when the text does not contain it |
| `Text.Split` | src/main.rs:157 | `str::split`: at least one part; joining the parts with the pattern gives the text back; no part contains the pattern; one part exactly when the text has no occurrence |
| `Text.SplitLeftmost` | src/main.rs:157 | the split is leftmost-first: every part but the last meets the pattern first right after itself, so no occurrence lies inside it or straddles its end |
| `Text.SplitJoin` | src/main.rs:157 | splitting undoes joining for parts of that shape, so the split of a text is the only such decomposition and its part count is fixed |
| `Text.SplitExamples` | src/main.rs:157 | `"----"` splits into `""` and `"-"`; `"------"` into three empty parts |
| `Text.FirstAt` | src/main.rs:157 | an occurrence with none before it is the one `IndexOf` finds |
| `Text.PartBeforeFirst` | src/main.rs:157 | the part before the first occurrence meets the pattern first right after itself |
| `Text.Join` | src/main.rs:70 | `[String]::join`: the parts with the separator between consecutive ones; `Text.SplitJoin` shows `Split` inverts it |
| `Text.StartsWith` | src/main.rs:299 | `str::starts_with`: the text begins with the prefix (`Text.Affixes`) |
| `Text.EndsWith` | src/main.rs:133 | `str::ends_with`: the text ends with the suffix (`Text.Affixes`) |
| `Text.Affixes` | src/main.rs:133 | a text starts with `x` exactly when it is `x` followed by something, and ends with `x` exactly when it is something followed by `x` |
| `Text.MarkdownStem` | src/main.rs:297 | the file stem of `x.md` is `x`; `.md` alone keeps its whole name |
| `Text.FileStem` | src/main.rs:297 | `Path::file_stem` of a name: always a prefix of the name |
| `Text.StemOf` | src/main.rs:297 | the stem is the whole name exactly when no `.` follows the first character; otherwise it ends just before the last `.` |
| `Tree.Unwrapped` | src/main.rs:230 | `unwrap` keeps a success unchanged and turns any failure into a panic |
| `Tree.Message` | src/main.rs:120 | the only messages are the two the source writes itself (`No index found in profile directory`, `Can't handle file format`); a panic carries its cause's message |
| `Tree.DefaultVersion` | src/main.rs:193-195 | the version given to a root without one is `1.0` |
| `Tree.DefaultFormat` | src/main.rs:349-351 | the format given to a document without one is `markdown` |
| `Tree.Pushed` | src/main.rs:237-240 | the pushed list is the old list (`None` read as empty) with the new child last, and it is never `None` |
| `Tree.AddedDescriptor` | src/main.rs:310-318 | `add_descriptor`: same node type, earlier children kept in order, new child last, one more child, every other field unchanged |
| `Tree.AddedDoc` | src/main.rs:320-325 | `add_doc`: the document becomes the given one, every other field unchanged |
| `Tree.Builder.constructor` | src/main.rs:170 | the mutable node starts as the decoded node |
| `Tree.Builder.AddDescriptor` | src/main.rs:235-243 | the in-place push turns the node into `AddedDescriptor` of the old node and leaves the document alone |
| `Tree.Builder.AddDoc` | src/main.rs:245-250 | the in-place assignment turns the node into `AddedDoc` of the old node and leaves the children alone |
| `Tree.DecodedDoc` | src/main.rs:342-351 | a document's `format` defaults to `markdown` when absent; its value is kept |
| `Tree.Decode` | src/main.rs:170 | decoding succeeds exactly when the decoder accepts the header, otherwise panics; the node has the requested type; a root's missing version becomes `1.0`; children, document and id are those of the header |
| `Markdown.SplitFile` | src/main.rs:157-168 | only the format error is returned; the header is never empty and both header and body are trimmed; the body never contains `---`; a text without `---` is all body under the header `{}` |
| `Markdown.PartCount` | src/main.rs:160-167 | a file is rejected exactly when it splits into neither one nor three parts |
| `Markdown.FileParts` | src/main.rs:160-166 | a three-part text is prefix, `---`, header, `---`, body, where prefix and header each meet `---` first right after themselves and no part contains it; it reads as the trimmed header (`{}` when blank) and the trimmed body |
| `Markdown.ThreeParts` | src/main.rs:160-166 | the converse: a text built from such a prefix, header and body splits into exactly those three parts and reads as the trimmed header and body |
| `Markdown.HeaderText` | src/main.rs:162-165 | the header handed to the decoder is never empty and has no whitespace at either end; a blank header becomes `{}`, any other is its trimmed form |
| `Markdown.TrimNoDelimiter` | src/main.rs:161-165 | trimming a part cannot create a `---` in it |
| `Markdown.SplitAtDelimiter` | src/main.rs:157 | a text with `---` right after a delimiter-free part (one not ending in `-`) splits there first |
| `Markdown.SplitTwice` | src/main.rs:157 | two such parts, each followed by `---`, are the first two parts of the split |
| `Markdown.FrontmatterFile` | src/main.rs:157-168 | for a prefix and a header that contain no `---` and do not end in `-`, a file written as prefix, `---`, header, `---`, body reads as the trimmed header (`{}` when blank) and the trimmed body, unless the body contains `---`, which rejects the file |
| `Markdown.SplitsThrice` | src/main.rs:157 | a header containing `---` adds at least one part to the split |
| `Markdown.DelimiterInHeader` | src/main.rs:160-167 | after a prefix free of `---` and not ending in `-`, a header containing `---` makes the split reject the file |
| `Markdown.ReadMarkdown` | src/main.rs:152-177 | the only failures are the format error and a decoding panic; the format error is returned exactly when the split rejects the text; the node has the requested type |
| `Markdown.DocAttachment` | src/main.rs:172-174 | reading succeeds exactly when decoding does; a non-empty body becomes a `markdown` document replacing the header's; an empty body leaves the header's document; no other field changes |
| `Markdown.ReadMarkdownFile` | src/main.rs:152-177 | the imperative reader (mutable node, `add_doc` in place) returns exactly `ReadMarkdown` |
| `Markdown.FromFile` | src/main.rs:293-308 | `Descriptor::from_file` succeeds exactly when `read_markdown_file` does, and panics otherwise |
| `Markdown.IdFromStem` | src/main.rs:297-304 | an id from the header is never overwritten; a stem starting with `_` leaves the id as decoded; otherwise a missing id becomes the stem; no other field changes |
| `Markdown.DescriptorFromFile` | src/main.rs:294-307 | the imperative `from_file`, reassigning the id in place, returns exactly `FromFile` |
| `Markdown.NodeFromFile` | src/main.rs:228-233 | `T::from_file` gives a node of the requested type or a panic |
| `Markdown.LoadNode` | src/main.rs:228-233 | the imperative dispatch returns exactly `NodeFromFile` |
| `Walk.FromFiles` | src/main.rs:183-187 | the program's `from_file` keeps the promise every reader makes: requested type or panic |
| `Walk.FindIndex` | src/main.rs:118-119 | `index.md` is found exactly when some entry has that name, and what is found is that entry |
| `Walk.IndexNode` | src/main.rs:122 | the node read from `index.md` has the requested type; any failure is a panic |
| `Walk.ChildEntries` | src/main.rs:129-144 | the entries that become children: every one is a child entry of the directory, and every child entry of the directory is among them |
| `Walk.ChildEntriesConcat` | src/main.rs:124-144 | the filter keeps entry order: the child entries of two runs of entries are those of the first followed by those of the second |
| `Walk.ChildEntriesOne` | src/main.rs:129-144 | a single entry contributes itself exactly when it is a child entry |
| `Walk.IsChildEntry` | src/main.rs:129-144 | an entry becomes a child when it is not named `index.md` and is a subdirectory or a file named `*.md` |
| `Walk.WalkProfile` | src/main.rs:114-150 | a walk gives a node of the requested type, or the missing-index error, or a panic |
| `Walk.AddEntries` | src/main.rs:124-147 | the loop keeps the node type and fails only by panicking |
| `Walk.ChildOf` | src/main.rs:133-144 | a child fails only by panicking, and a child from a subdirectory has the directory's name as its id |
| `Walk.DirectoryChild` | src/main.rs:137-141 | a subdirectory becomes a child exactly when its walk succeeds; the child is the walked descriptor with its id replaced by the directory name |
| `Walk.BuildProfile` | src/main.rs:74-76 | building succeeds exactly when the root walk does, wraps that root, and otherwise panics |
| `Walk.FailureSticks` | src/main.rs:136-139 | once an entry fails, the loop's result stays that failure |
| `Walk.MissingIndex` | src/main.rs:118-121 | a walk fails with the missing-index error exactly when no entry is named `index.md`; its message is `No index found in profile directory` |
| `Walk.AppendedStep` | src/main.rs:146 | appending the next child keeps the relation between the node, its original and the child entries |
| `Walk.AddedChildren` | src/main.rs:124-147 | after any prefix of the entries, the node is the original with one child per child entry appended in order: earlier children kept, nothing else changed, and no change without child entries |
| `Walk.ChildEntriesStep` | src/main.rs:129-144 | one more entry adds itself to the child entries exactly when it is a child entry |
| `Walk.ChildrenReadStep` | src/main.rs:133-144 | every child entry of a longer prefix reads exactly when those of the shorter one do and the new entry does |
| `Walk.AllOrNothing` | src/main.rs:124-147 | no partial result: the loop succeeds exactly when every child entry reads without failing |
| `Walk.FirstFailure` | src/main.rs:124-147 | a failed loop fails with the failure of the first child entry that fails, after succeeding on every entry before it |
| `Walk.WalkedNode` | src/main.rs:114-150 | a successful walk found `index.md`, read it, and appended one child per child entry to it in entry order |
| `Walk.MarkdownFileChild` | src/main.rs:133-136 | a `*.md` file child other than one named just `.md` is `Descriptor::from_file` with the name minus `.md` as the stem |
| `Walk.ReadIndex` | src/main.rs:122 | the imperative read of `index.md` returns exactly `IndexNode` |
| `Walk.ReadChild` | src/main.rs:133-144 | the imperative read of one child returns exactly `ChildOf` |
| `Walk.WalkSucceeds` | src/main.rs:114-150 | a walk succeeds exactly when `index.md` exists and reads and every child entry reads; an `index.md` that does not read is the walk's failure |
| `Walk.WalkFailure` | src/main.rs:122-147 | a walk whose `index.md` reads fails with the failure of its first child entry that does not read, every child entry before it having read |
| `Walk.Walk` | src/main.rs:114-150 | the imperative walk returns exactly `WalkProfile` |
| `Walk.AppendChildren` | src/main.rs:124-149 | the `for` loop over the mutable node returns exactly `AddEntries` over all entries, and on success the node holds that result |
| `Scaffold.Values` | src/main.rs:38-43 | one answer per header key |
| `Scaffold.Line` | src/main.rs:45-47 | at most one line per answer: none exactly when the answer is empty, else `key: value` |
| `Scaffold.Lines` | src/main.rs:45-67 | at most one line per key (`Scaffold.LinesShape`, `Scaffold.LinesCount` and `Scaffold.LinesOfAnswers` give the rest) |
| `Scaffold.Frontmatter` | src/main.rs:45-70 | the frontmatter is empty exactly when every answer is empty, so the empty-frontmatter stub is written exactly then |
| `Scaffold.JoinedLinesEmpty` | src/main.rs:70 | the joined lines are empty exactly when every answer is empty |
| `Scaffold.LinesFrom` | src/main.rs:45-67 | the lines from one key on are that key's line followed by the rest |
| `Scaffold.LinesOfAnswers` | src/main.rs:45-67 | the lines are those of name, title, def, href, rel and tag, in that order |
| `Scaffold.AssembleFrontmatter` | src/main.rs:35-70 | the pushed-and-joined frontmatter is `Frontmatter` of the answers when prompting, and empty otherwise |
| `Scaffold.StubContent` | src/main.rs:101-105 | the stub is a `---` line, the frontmatter's own line when there is one, a second `---` line and an empty line, laid out as the prefix/header/body shape `Markdown.FrontmatterFile` reads |
| `Scaffold.LinesShape` | src/main.rs:45-67 | every line is `key: value` for a key with a non-empty answer |
| `Scaffold.LinesCount` | src/main.rs:45-67 | there are no lines exactly when every answer is empty |
| `Scaffold.LineOf` | src/main.rs:45-67 | each non-empty answer has its `key: value` line among the lines |
| `Scaffold.FrontmatterDelimiter` | src/main.rs:45-70 | the frontmatter contains `---` exactly when some answer does |
| `Scaffold.StubSplits` | src/main.rs:101-105 | a stub whose frontmatter has no `---` reads as the trimmed frontmatter (`{}` when blank) and an empty body |
| `Scaffold.StubRejected` | src/main.rs:101-105 | a stub whose frontmatter contains `---` cannot be read back |
| `Scaffold.StubHasNoDoc` | src/main.rs:101-105 | for a frontmatter without `---`, reading the stub back gives exactly the decoded frontmatter, with no document attached |
| `Scaffold.StubUnreadable` | src/main.rs:101-105 | `read_markdown_file` rejects the stub of prompt answers with the format error exactly when some answer contains `---` |
| `Scaffold.ScaffoldedStub` | src/main.rs:101-105 | the split accepts the stub of prompt answers exactly when no answer contains `---`, and then gives the trimmed frontmatter with an empty body |
| `Scaffold.EmptyStub` | src/main.rs:101-102 | given a decoder that reads `{}` as no keys and a file stem not starting with `_`, the stub written without prompting reads back as a descriptor whose only field is the id from its file name |

## Left out

- Command-line parsing (`clap`) and the interactive prompts are not modelled. The six answers are a parameter; only their assembly is modelled.
- The YAML decoder is a parameter, `Decoder`, from the node type and header text to an optional record of optional fields. Its own rules are not modelled: error texts, unknown keys, nested descriptor syntax, and the `type` key.
- The JSON output after the walk is left out: `to_string_pretty` and the omission of `None` fields. `BuildProfile` stops at the `AlpsDocument` value.
- The real filesystem is replaced by a `Dir` value holding file names, file texts and subdirectories. This leaves out `read_to_string` (including non-UTF-8 text), `read_dir` and its unspecified order (the model takes the entries in the order given), `is_dir`, `exists` and the entry-level `unwrap`s. A directory named `index.md` is read as a panic, because `read_to_string` fails on it.
- The filesystem changes of `create_descriptor` are not modelled: the existence checks, promoting `<parent>.md` to `<parent>/index.md`, and writing the file. Only the content it writes is modelled.
- `impl Default` for `Alps`, `AlpsDocument` and `DescriptorType` is left out, because decoding never uses it.
- The walker's lemmas hold for any reader that returns a node of the requested type or a panic; `Walk.FromFiles` is the program's own reader. The generic trait dispatch itself is not modelled.
- Panic messages and error texts from the libraries are not modelled. `Tree.Message` gives only the two texts the source writes itself.
