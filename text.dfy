/**
 * The string operations the profile builder relies on, with Rust's meaning:
 * `str::trim`, `str::split` on a string pattern, `[String]::join`,
 * `starts_with`/`ends_with` and `Path::file_stem`.
 */
module Text {
  import opened Results

  /** The Unicode White_Space property, which `str::trim` strips. */
  predicate IsWhitespace(c: char) {
    ('\t' <= c <= '\r') || c == ' ' || c == '\U{0085}' || c == '\U{00A0}'
    || c == '\U{1680}' || ('\U{2000}' <= c <= '\U{200A}') || c == '\U{2028}'
    || c == '\U{2029}' || c == '\U{202F}' || c == '\U{205F}' || c == '\U{3000}'
  }

  predicate Blank(s: string) {
    forall i :: 0 <= i < |s| ==> IsWhitespace(s[i])
  }

  /** Neither end of `s` is whitespace (vacuously so for the empty string). */
  predicate Tight(s: string) {
    s == [] || (!IsWhitespace(s[0]) && !IsWhitespace(s[|s| - 1]))
  }

  function TrimStart(s: string): (r: string)
    ensures |r| <= |s| && r == s[|s| - |r|..]
    ensures Blank(s[..|s| - |r|])
    ensures r != [] ==> !IsWhitespace(r[0])
  {
    if s != [] && IsWhitespace(s[0]) then TrimStart(s[1..]) else s
  }

  function TrimEnd(s: string): (r: string)
    ensures |r| <= |s| && r == s[..|r|]
    ensures Blank(s[|r|..])
    ensures r != [] ==> !IsWhitespace(r[|r| - 1])
  {
    if s != [] && IsWhitespace(s[|s| - 1]) then
      var r := TrimEnd(s[..|s| - 1]);
      assert s[|r|..] == s[..|s| - 1][|r|..] + [s[|s| - 1]];
      r
    else s
  }

  /** `str::trim`: leading and trailing whitespace removed. */
  function Trim(s: string): (r: string)
    ensures Tight(r)
    ensures r == [] <==> Blank(s)
  {
    var t := TrimStart(s);
    var r := TrimEnd(t);
    assert r == [] ==> Blank(s) by {
      if r == [] {
        assert s == s[..|s| - |t|] + t;
        assert t == t[|r|..];
      }
    }
    r
  }

  lemma {:induction false} TrimStartBlank(w: string, s: string)
    requires Blank(w)
    ensures TrimStart(w + s) == TrimStart(s)
  {
    if w != [] {
      assert (w + s)[1..] == w[1..] + s;
      TrimStartBlank(w[1..], s);
    } else {
      assert w + s == s;
    }
  }

  lemma {:induction false} TrimEndBlank(s: string, w: string)
    requires Blank(w)
    ensures TrimEnd(s + w) == TrimEnd(s)
  {
    if w != [] {
      assert (s + w)[..|s + w| - 1] == s + w[..|w| - 1];
      TrimEndBlank(s, w[..|w| - 1]);
    } else {
      assert s + w == s;
    }
  }

  /**
   * Trim is determined by its result: whatever whitespace surrounds a string
   * whose ends are not whitespace is exactly what trimming removes.
   */
  lemma TrimSurrounded(lead: string, t: string, trail: string)
    requires Blank(lead) && Blank(trail) && Tight(t)
    ensures Trim(lead + t + trail) == t
  {
    assert lead + t + trail == lead + (t + trail);
    TrimStartBlank(lead, t + trail);
    if t == [] {
      assert t + trail == trail + [];
      TrimStartBlank(trail, []);
    } else {
      assert (t + trail)[0] == t[0];
      assert TrimStart(t + trail) == t + trail;
      TrimEndBlank(t, trail);
      assert TrimEnd(t) == t;
    }
  }

  /** Every string is its trimmed form surrounded by the whitespace trimming removes. */
  lemma TrimSplits(s: string) returns (lead: string, trail: string)
    ensures s == lead + Trim(s) + trail
    ensures Blank(lead) && Blank(trail)
  {
    var t := TrimStart(s);
    var r := TrimEnd(t);
    lead := s[..|s| - |t|];
    trail := t[|r|..];
    assert Trim(s) == r;
    TakeDrop(s, |s| - |t|);
    TakeDrop(t, |r|);
    Associate(lead, r, trail);
  }

  lemma Associate<T>(a: seq<T>, b: seq<T>, c: seq<T>)
    ensures a + (b + c) == a + b + c
  {
  }

  lemma TakeDrop(s: string, k: nat)
    requires k <= |s|
    ensures s == s[..k] + s[k..]
  {
  }

  /** Trimming a string wrapped in whitespace gives the trimmed inner string. */
  lemma TrimWrapped(lead: string, s: string, trail: string)
    requires Blank(lead) && Blank(trail)
    ensures Trim(lead + s + trail) == Trim(s)
  {
    var l, t := TrimSplits(s);
    Regroup(lead, l, Trim(s), t, trail);
    BlankConcat(lead, l);
    BlankConcat(t, trail);
    TrimSurrounded(lead + l, Trim(s), t + trail);
  }

  lemma Regroup(a: string, b: string, c: string, d: string, e: string)
    ensures a + (b + c + d) + e == (a + b) + c + (d + e)
  {
  }

  lemma BlankConcat(a: string, b: string)
    requires Blank(a) && Blank(b)
    ensures Blank(a + b)
  {
    forall i | 0 <= i < |a + b|
      ensures IsWhitespace((a + b)[i])
    {
      if i >= |a| {
        assert (a + b)[i] == b[i - |a|];
      }
    }
  }

  predicate StartsWith(s: string, prefix: string) {
    |prefix| <= |s| && s[..|prefix|] == prefix
  }

  predicate EndsWith(s: string, suffix: string) {
    |suffix| <= |s| && s[|s| - |suffix|..] == suffix
  }

  /** `str::starts_with` and `str::ends_with`: the text is the affix extended on the other side. */
  lemma Affixes(s: string, x: string)
    ensures StartsWith(s, x) <==> exists t :: s == x + t
    ensures EndsWith(s, x) <==> exists t :: s == t + x
  {
    if StartsWith(s, x) {
      assert s == x + s[|x|..];
    }
    if EndsWith(s, x) {
      assert s == s[..|s| - |x|] + x;
    }
  }

  /** `pat` occurs in `s` starting at index `i`. */
  predicate OccursAt(s: string, pat: string, i: nat) {
    i + |pat| <= |s| && s[i..i + |pat|] == pat
  }

  predicate Contains(s: string, pat: string) {
    exists i: nat | i <= |s| :: OccursAt(s, pat, i)
  }

  /** An occurrence inside `y` is an occurrence inside any text that contains `y`. */
  lemma OccursInside(x: string, y: string, z: string, pat: string, i: nat)
    requires i + |pat| <= |y|
    ensures OccursAt(x + y + z, pat, |x| + i) <==> OccursAt(y, pat, i)
  {
    var s := x + y + z;
    assert s[|x| + i..|x| + i + |pat|] == y[i..i + |pat|];
  }

  /** The first index at or after `from` where `pat` occurs. */
  function IndexFrom(s: string, pat: string, from: nat): (r: Option<nat>)
    requires pat != []
    ensures r.Some? ==> from <= r.value && OccursAt(s, pat, r.value)
    ensures r.Some? ==> forall j: nat :: from <= j < r.value ==> !OccursAt(s, pat, j)
    ensures r.None? ==> forall j: nat :: from <= j ==> !OccursAt(s, pat, j)
    decreases |s| - from
  {
    if |s| < from + |pat| then None
    else if OccursAt(s, pat, from) then Some(from)
    else IndexFrom(s, pat, from + 1)
  }

  /** The leftmost occurrence of `pat` in `s`. */
  function IndexOf(s: string, pat: string): (r: Option<nat>)
    requires pat != []
    ensures r.None? <==> !Contains(s, pat)
    ensures r.Some? ==> OccursAt(s, pat, r.value)
    ensures r.Some? ==> forall j: nat :: j < r.value ==> !OccursAt(s, pat, j)
  {
    IndexFrom(s, pat, 0)
  }

  /** `[String]::join`: the parts with `sep` between consecutive ones. */
  function Join(parts: seq<string>, sep: string): string {
    if |parts| == 0 then ""
    else if |parts| == 1 then parts[0]
    else parts[0] + sep + Join(parts[1..], sep)
  }

  /** A prefix of `s` that ends before the first occurrence of `pat` does not contain it. */
  lemma PrefixBeforeFirst(s: string, pat: string, i: nat)
    requires pat != [] && i <= |s|
    requires forall j: nat :: j < i ==> !OccursAt(s, pat, j)
    ensures !Contains(s[..i], pat)
  {
    forall j: nat | OccursAt(s[..i], pat, j)
      ensures false
    {
      assert s[..i][j..j + |pat|] == s[j..j + |pat|];
      assert OccursAt(s, pat, j);
    }
  }

  /**
   * `part` followed by `pat` meets `pat` first at the end of `part`: no
   * occurrence lies inside `part` or straddles its end.
   */
  predicate Leftmost(part: string, pat: string)
    requires pat != []
  {
    IndexOf(part + pat, pat) == Some(|part|)
  }

  /**
   * `str::split` with a string pattern: the pieces between the occurrences
   * of `pat` found scanning left to right without overlap. Joining the pieces
   * back with `pat` gives the text and no piece contains `pat`; that every
   * piece but the last is `Leftmost` is `SplitLeftmost`.
   */
  function Split(s: string, pat: string): (parts: seq<string>)
    requires pat != []
    ensures |parts| >= 1
    ensures Join(parts, pat) == s
    ensures forall k :: 0 <= k < |parts| ==> !Contains(parts[k], pat)
    ensures |parts| == 1 <==> !Contains(s, pat)
    decreases |s|
  {
    match IndexOf(s, pat)
    case None => [s]
    case Some(i) =>
      var rest := Split(s[i + |pat|..], pat);
      PrefixBeforeFirst(s, pat, i);
      assert s == s[..i] + pat + s[i + |pat|..] by {
        assert s[i..i + |pat|] == pat;
        assert s == s[..i] + s[i..i + |pat|] + s[i + |pat|..];
      }
      assert Contains(s, pat) by { assert OccursAt(s, pat, i); }
      [s[..i]] + rest
  }

  /** Every piece of a split but the last ends where the leftmost occurrence after it starts. */
  lemma {:induction false} SplitLeftmost(s: string, pat: string)
    requires pat != []
    ensures forall k :: 0 <= k < |Split(s, pat)| - 1 ==> Leftmost(Split(s, pat)[k], pat)
    decreases |s|
  {
    match IndexOf(s, pat)
    case None =>
    case Some(i) =>
      var rest := Split(s[i + |pat|..], pat);
      SplitLeftmost(s[i + |pat|..], pat);
      PartBeforeFirst(s, pat, i);
      var parts := Split(s, pat);
      assert parts == [s[..i]] + rest;
      forall k | 0 <= k < |parts| - 1
        ensures Leftmost(parts[k], pat)
      {
        if k > 0 {
          assert parts[k] == rest[k - 1];
        }
      }
  }

  /** `i` is the first occurrence of `pat` in `s`. */
  lemma FirstAt(s: string, pat: string, i: nat)
    requires pat != [] && OccursAt(s, pat, i)
    requires forall j: nat :: j < i ==> !OccursAt(s, pat, j)
    ensures IndexOf(s, pat) == Some(i)
  {
    assert Contains(s, pat);
  }

  /** An occurrence that fits inside a prefix of `s` is one in `s` and one in the prefix alike. */
  lemma PrefixOccurs(s: string, t: string, pat: string, j: nat)
    requires |t| <= |s| && t == s[..|t|] && j + |pat| <= |t|
    ensures OccursAt(s, pat, j) <==> OccursAt(t, pat, j)
  {
    assert s[j..j + |pat|] == t[j..j + |pat|];
  }

  /** The part before the first occurrence is `Leftmost`. */
  lemma PartBeforeFirst(s: string, pat: string, i: nat)
    requires pat != [] && IndexOf(s, pat) == Some(i)
    ensures Leftmost(s[..i], pat)
  {
    var t := s[..i] + pat;
    assert t == s[..i + |pat|];
    forall j: nat | j < i
      ensures !OccursAt(t, pat, j)
    {
      if j + |pat| <= |t| {
        PrefixOccurs(s, t, pat, j);
      }
    }
    FirstAt(t, pat, i);
  }

  /** A text that starts with a `Leftmost` part and `pat` has its first occurrence there. */
  lemma FirstAfterPart(p: string, pat: string, rest: string)
    requires pat != [] && Leftmost(p, pat)
    ensures IndexOf(p + pat + rest, pat) == Some(|p|)
  {
    var s := p + pat + rest;
    var t := p + pat;
    assert s[..|t|] == t;
    forall j: nat | j < |p|
      ensures !OccursAt(s, pat, j)
    {
      PrefixOccurs(s, t, pat, j);
    }
    assert s[|p|..|p| + |pat|] == pat;
    FirstAt(s, pat, |p|);
  }

  /** The split of a text with a first occurrence at `i`: the part before it, then the split of the rest. */
  lemma SplitAt(s: string, pat: string, i: nat)
    requires pat != [] && IndexOf(s, pat) == Some(i)
    ensures Split(s, pat) == [s[..i]] + Split(s[i + |pat|..], pat)
  {
  }

  /**
   * Splitting undoes joining, for parts as `str::split` leaves them: every
   * part but the last is `Leftmost` and the last has no occurrence. With
   * `Split`'s own guarantees this makes the split of a text unique.
   */
  lemma {:induction false} SplitJoin(parts: seq<string>, pat: string)
    requires pat != [] && |parts| >= 1
    requires forall k :: 0 <= k < |parts| - 1 ==> Leftmost(parts[k], pat)
    requires !Contains(parts[|parts| - 1], pat)
    ensures Split(Join(parts, pat), pat) == parts
  {
    if |parts| > 1 {
      var p, tail := parts[0], parts[1..];
      var rest := Join(tail, pat);
      var s := Join(parts, pat);
      assert Split(s, pat) == [p] + Split(rest, pat) by {
        assert s == p + pat + rest;
        assert Leftmost(p, pat);
        FirstAfterPart(p, pat, rest);
        SplitAt(s, pat, |p|);
        assert s[..|p|] == p;
        assert s[|p| + |pat|..] == rest;
      }
      assert Split(rest, pat) == tail by {
        forall k | 0 <= k < |tail| - 1
          ensures Leftmost(tail[k], pat)
        {
          assert tail[k] == parts[k + 1];
        }
        assert tail[|tail| - 1] == parts[|parts| - 1];
        SplitJoin(tail, pat);
      }
      assert [p] + tail == parts;
    } else {
      assert Join(parts, pat) == parts[0];
    }
  }

  /** Splitting on `---` scans left to right without overlap. */
  lemma SplitExamples()
    ensures Split("----", "---") == ["", "-"]
    ensures Split("------", "---") == ["", "", ""]
  {
    FirstAt("" + "---", "---", 0);
    assert !Contains("-", "---");
    assert !Contains("", "---");
    assert Join(["", "-"], "---") == "----";
    assert Join(["", "", ""], "---") == "------";
    SplitJoin(["", "-"], "---");
    SplitJoin(["", "", ""], "---");
  }

  /** The last index of `c` in `s`. */
  function LastIndexOf(s: string, c: char): (r: Option<nat>)
    ensures r.Some? ==> r.value < |s| && s[r.value] == c
    ensures r.Some? ==> forall j :: r.value < j < |s| ==> s[j] != c
    ensures r.None? ==> forall j :: 0 <= j < |s| ==> s[j] != c
  {
    if s == [] then None
    else if s[|s| - 1] == c then Some(|s| - 1)
    else LastIndexOf(s[..|s| - 1], c)
  }

  /**
   * `Path::file_stem` of a file name: the part before the last `.`, or the
   * whole name when it has no `.` or its only `.` is the first character.
   */
  function FileStem(name: string): (r: string)
    ensures StartsWith(name, r)
  {
    match LastIndexOf(name, '.')
    case None => name
    case Some(k) => if k == 0 then name else name[..k]
  }

  /**
   * The stem is the whole name exactly when no `.` follows the first
   * character; otherwise it ends just before the last `.`.
   */
  lemma StemOf(name: string)
    ensures FileStem(name) == name <==> forall j :: 0 < j < |name| ==> name[j] != '.'
    ensures FileStem(name) != name ==>
      var r := FileStem(name);
      0 < |r| && name[|r|] == '.' && forall j :: |r| < j < |name| ==> name[j] != '.'
  {
  }

  /** The stem of a `*.md` name is the name without `.md`, except for `.md` itself. */
  lemma MarkdownStem(name: string)
    requires EndsWith(name, ".md")
    ensures FileStem(name) == if name == ".md" then name else name[..|name| - 3]
  {
    assert name[|name| - 3] == '.' && name[|name| - 2] == 'm' && name[|name| - 1] == 'd';
  }
}
