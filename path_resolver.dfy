/** `find_item`: resolving a slash-separated path against the tree. */
module PathResolver {
  import opened Tree
  import opened Text

  datatype Result<+T, +E> = Ok(value: T) | Err(error: E)

  /** The two ways a lookup fails; both are raised as `FileNotFoundError`. */
  datatype ErrorKind = NotFound | NotADirectory

  /** A failed lookup, carrying the path exactly as the caller gave it. */
  datatype FsError = FsError(kind: ErrorKind, path: string)

  /** The text of the raised error. */
  function Message(e: FsError): (m: string)
    ensures |m| > 15 + |e.path|
    ensures m[..15] == "Cannot access '"
    ensures m[15..15 + |e.path|] == e.path
    ensures m[15 + |e.path|..] == "': " + (if e.kind == NotFound then "No such file or directory" else "Not a directory")
  {
    var prefix := "Cannot access '";
    assert |prefix| == 15;
    prefix + e.path + "': " +
    (match e.kind
     case NotFound => "No such file or directory"
     case NotADirectory => "Not a directory")
  }

  /** Index of the first child called `name`, or `|children|` when none is:
      the `next(..., None)` search over `contents`. */
  function FirstNamed(children: seq<Node>, name: string): (k: nat)
    ensures k <= |children|
    ensures forall j :: 0 <= j < k ==> children[j].name != name
    ensures k < |children| ==> children[k].name == name
  {
    if children == [] then 0
    else if children[0].name == name then 0
    else 1 + FirstNamed(children[1..], name)
  }

  /** The parts the loop runs over: `path.strip('./').split('/')`. */
  function Segments(path: string): seq<string> {
    Split(Strip(path), '/')
  }

  /** The non-empty segments, in order: the names the lookup descends by. */
  function NonEmpty(parts: seq<string>): seq<string> {
    if parts == [] then []
    else (if parts[0] == "" then [] else [parts[0]]) + NonEmpty(parts[1..])
  }

  /** The lookup from `node` along `parts`: empty parts are skipped, a
      non-empty one descends into the first child of that name. */
  function Walk(node: Node, parts: seq<string>): Result<Node, ErrorKind>
    decreases |parts|
  {
    if parts == [] then Ok(node)
    else if parts[0] == "" then Walk(node, parts[1..])
    else if !IsDirectory(node) then Err(NotADirectory)
    else
      var k := FirstNamed(node.contents, parts[0]);
      if k == |node.contents| then Err(NotFound) else Walk(node.contents[k], parts[1..])
  }

  /** What `find_item(data, path)` returns or raises. */
  function Resolve(root: Node, path: string): Result<Node, FsError> {
    match Walk(root, Segments(path))
    case Ok(n) => Ok(n)
    case Err(kind) => Err(FsError(kind, path))
  }

  /** `find_item`: the loop over the parts, reassigning `current`. */
  method FindItem(root: Node, path: string) returns (r: Result<Node, FsError>)
    ensures r == Resolve(root, path)
  {
    var parts := Split(Strip(path), '/');
    var current := root;
    var i := 0;
    while i < |parts|
      invariant 0 <= i <= |parts|
      invariant Walk(root, parts) == Walk(current, parts[i..])
    {
      var part := parts[i];
      assert parts[i..][0] == part && parts[i..][1..] == parts[i + 1..];
      if part == "" {
        i := i + 1;
        continue;
      }
      if IsDirectory(current) {
        var k := FirstNamed(current.contents, part);
        if k == |current.contents| {
          return Err(FsError(NotFound, path));
        }
        current := current.contents[k];
      } else {
        return Err(FsError(NotADirectory, path));
      }
      i := i + 1;
    }
    return Ok(current);
  }

  // ---------------------------------------------------------------------
  // Properties of the lookup

  /** Walking `p + q` is walking `p`, then `q` from where `p` ended. */
  lemma {:induction false} WalkAppend(n: Node, p: seq<string>, q: seq<string>)
    ensures Walk(n, p + q) == match Walk(n, p)
                              case Ok(m) => Walk(m, q)
                              case Err(e) => Err(e)
    decreases |p|
  {
    if p == [] {
      assert p + q == q;
    } else {
      assert (p + q)[0] == p[0] && (p + q)[1..] == p[1..] + q;
      if p[0] == "" {
        WalkAppend(n, p[1..], q);
      } else if IsDirectory(n) {
        var k := FirstNamed(n.contents, p[0]);
        if k < |n.contents| {
          WalkAppend(n.contents[k], p[1..], q);
        }
      }
    }
  }

  /** Parts that are all empty leave the lookup where it started. */
  lemma {:induction false} WalkAllEmpty(n: Node, parts: seq<string>)
    requires forall i :: 0 <= i < |parts| ==> parts[i] == ""
    ensures Walk(n, parts) == Ok(n)
    decreases |parts|
  {
    if parts != [] {
      WalkAllEmpty(n, parts[1..]);
    }
  }

  /** A lookup fails at segment `i` when the walk up to `i` reached a file
      (`NotADirectory`) or a directory with no child of that name (`NotFound`). */
  lemma WalkFailsWhen(n: Node, parts: seq<string>, i: nat)
    requires i < |parts| && parts[i] != ""
    requires Walk(n, parts[..i]).Ok?
    ensures var d := Walk(n, parts[..i]).value;
      && (!IsDirectory(d) ==> Walk(n, parts) == Err(NotADirectory))
      && (IsDirectory(d) && (forall c :: c in d.contents ==> c.name != parts[i]) ==> Walk(n, parts) == Err(NotFound))
  {
    var d := Walk(n, parts[..i]).value;
    assert parts == parts[..i] + parts[i..];
    WalkAppend(n, parts[..i], parts[i..]);
    assert parts[i..][0] == parts[i];
  }

  /** Conversely, every failure happens at some non-empty segment `i` for
      one of those two reasons. */
  lemma {:induction false} WalkFailsAt(n: Node, parts: seq<string>) returns (i: nat, d: Node)
    requires Walk(n, parts).Err?
    ensures i < |parts| && parts[i] != ""
    ensures Walk(n, parts[..i]) == Ok(d)
    ensures Walk(n, parts) == Err(NotADirectory) ==> !IsDirectory(d)
    ensures Walk(n, parts) == Err(NotFound) ==>
      IsDirectory(d) && forall c :: c in d.contents ==> c.name != parts[i]
    decreases |parts|
  {
    assert parts != [];
    assert parts[..0] == [];
    if parts[0] == "" {
      var j, d' := WalkFailsAt(n, parts[1..]);
      i, d := j + 1, d';
      assert parts[..i] == [parts[0]] + parts[1..][..j];
    } else if !IsDirectory(n) {
      i, d := 0, n;
    } else {
      var k := FirstNamed(n.contents, parts[0]);
      if k == |n.contents| {
        i, d := 0, n;
      } else {
        var j, d' := WalkFailsAt(n.contents[k], parts[1..]);
        i, d := j + 1, d';
        assert parts[..i] == [parts[0]] + parts[1..][..j];
      }
    }
  }

  /** No non-empty segment: the lookup stays where it started. */
  lemma {:induction false} WalkAllEmptyNames(n: Node, parts: seq<string>)
    requires NonEmpty(parts) == []
    ensures Walk(n, parts) == Ok(n)
    decreases |parts|
  {
    if parts != [] {
      WalkAllEmptyNames(n, parts[1..]);
    }
  }

  /** `t` is reached from `n` by descending into children named `names`. */
  ghost predicate Reaches(n: Node, names: seq<string>, t: Node)
    decreases |names|
  {
    if names == [] then t == n
    else
      && IsDirectory(n)
      && exists i :: 0 <= i < |n.contents| && n.contents[i].name == names[0] && Reaches(n.contents[i], names[1..], t)
  }

  /** Sibling entries have distinct names, all through the tree. */
  ghost predicate UniqueNames(n: Node) {
    IsDirectory(n) ==>
      && (forall i, j :: 0 <= i < j < |n.contents| ==> n.contents[i].name != n.contents[j].name)
      && (forall c :: c in n.contents ==> UniqueNames(c))
  }

  /** A successful lookup ends at a node reached from `n` by descending, one
      child at a time, along the non-empty segments. */
  lemma {:induction false} WalkReaches(n: Node, parts: seq<string>)
    requires Walk(n, parts).Ok?
    ensures Reaches(n, NonEmpty(parts), Walk(n, parts).value)
    decreases |parts|
  {
    if parts != [] {
      if parts[0] == "" {
        assert NonEmpty(parts) == NonEmpty(parts[1..]);
        WalkReaches(n, parts[1..]);
      } else {
        var k := FirstNamed(n.contents, parts[0]);
        var c := n.contents[k];
        assert Walk(n, parts) == Walk(c, parts[1..]);
        var names := NonEmpty(parts);
        assert names == [parts[0]] + NonEmpty(parts[1..]);
        assert names[1..] == NonEmpty(parts[1..]);
        WalkReaches(c, parts[1..]);
        assert n.contents[k].name == names[0] && Reaches(n.contents[k], names[1..], Walk(n, parts).value);
      }
    }
  }

  /** When there is a non-empty segment, the lookup ends on an entry named
      after the last one, strictly below where it started. */
  lemma {:induction false} WalkLandsOnLast(n: Node, parts: seq<string>)
    requires Walk(n, parts).Ok?
    ensures var names := NonEmpty(parts); names != [] ==>
      && Walk(n, parts).value.name == names[|names| - 1]
      && Height(Walk(n, parts).value) < Height(n)
    decreases |parts|
  {
    if parts != [] {
      if parts[0] == "" {
        assert NonEmpty(parts) == NonEmpty(parts[1..]);
        WalkLandsOnLast(n, parts[1..]);
      } else {
        var k := FirstNamed(n.contents, parts[0]);
        var c := n.contents[k];
        assert Walk(n, parts) == Walk(c, parts[1..]);
        var rest := NonEmpty(parts[1..]);
        var names := NonEmpty(parts);
        assert names == [parts[0]] + rest;
        WalkLandsOnLast(c, parts[1..]);
        assert c in n.contents;
        assert Height(c) < Height(n);
        if rest == [] {
          WalkAllEmptyNames(c, parts[1..]);
        } else {
          assert names[|names| - 1] == rest[|rest| - 1];
        }
      }
    }
  }

  /** In a tree whose sibling names are unique, every node reachable by the
      non-empty segments is what the lookup returns. */
  lemma {:induction false} ReachesWalk(n: Node, parts: seq<string>, t: Node)
    requires UniqueNames(n)
    requires Reaches(n, NonEmpty(parts), t)
    ensures Walk(n, parts) == Ok(t)
    decreases |parts|
  {
    if parts != [] {
      if parts[0] == "" {
        assert NonEmpty(parts) == NonEmpty(parts[1..]);
        ReachesWalk(n, parts[1..], t);
      } else {
        var names := NonEmpty(parts);
        assert names == [parts[0]] + NonEmpty(parts[1..]);
        var i :| 0 <= i < |n.contents| && n.contents[i].name == names[0] && Reaches(n.contents[i], names[1..], t);
        var k := FirstNamed(n.contents, parts[0]);
        assert k == i;
        assert n.contents[i] in n.contents;
        ReachesWalk(n.contents[i], parts[1..], t);
      }
    }
  }

  /** `find_item` returns the root itself exactly when the path holds nothing
      but `.` and `/` (as `.`, `""`, `./`, `//` do): any other path has a
      non-empty segment, and a lookup that uses one ends strictly below. */
  lemma ResolveToRoot(root: Node, path: string)
    ensures Resolve(root, path) == Ok(root) <==> forall i :: 0 <= i < |path| ==> IsStripChar(path[i])
  {
    var s := Strip(path);
    var parts := Segments(path);
    if forall i :: 0 <= i < |path| ==> IsStripChar(path[i]) {
      assert s == [];
      assert parts == [""];
      WalkAllEmpty(root, parts);
    } else {
      assert s != [] && !IsStripChar(s[0]);
      var k := IndexOf(s, '/');
      assert k > 0;
      assert parts[0] == s[..k];
      assert parts[0] != "";
      assert NonEmpty(parts) != [] by {
        assert parts == [parts[0]] + parts[1..];
      }
      if Walk(root, parts).Ok? {
        WalkLandsOnLast(root, parts);
      }
    }
  }

  // ---------------------------------------------------------------------
  // The test's tree

  function SampleFile1(): Node { File("file1.txt", 0, 0, "") }
  function SampleFile2(): Node { File("file2.txt", 0, 0, "") }
  function SampleDir1(): Node { Dir("dir1", 0, 0, "", [SampleFile2()]) }
  function SampleRoot(): Node { Dir("root", 0, 0, "", [SampleFile1(), SampleDir1()]) }

  /** A path that neither starts nor ends with `.` or `/` is split as it is. */
  lemma SegmentsOfClean(path: string, parts: seq<string>)
    requires path != [] && !IsStripChar(path[0]) && !IsStripChar(path[|path| - 1])
    requires |parts| >= 1 && forall i :: 0 <= i < |parts| ==> '/' !in parts[i]
    requires path == Join(parts, '/')
    ensures Segments(path) == parts
  {
    assert TrimLeft(path) == path;
    assert TrimRight(path) == path;
    SplitJoin(parts, '/');
  }

  /** The test's first lookup: a file directly under the root. */
  lemma SampleLookupFile()
    ensures Resolve(SampleRoot(), "file1.txt") == Ok(SampleFile1())
  {
    FileSegments();
    FileWalk();
    ResolveFound(SampleRoot(), "file1.txt", ["file1.txt"], SampleFile1());
  }

  lemma FileWalk()
    ensures Walk(SampleRoot(), ["file1.txt"]) == Ok(SampleFile1())
  {
    assert FirstNamed(SampleRoot().contents, "file1.txt") == 0;
  }

  /** A path whose segments are known resolves to where the walk along
      them ends. */
  lemma ResolveFound(root: Node, path: string, parts: seq<string>, n: Node)
    requires Segments(path) == parts && Walk(root, parts) == Ok(n)
    ensures Resolve(root, path) == Ok(n)
  {
  }

  lemma FileSegments()
    ensures Segments("file1.txt") == ["file1.txt"]
  {
    SegmentsOfClean("file1.txt", ["file1.txt"]);
  }

  /** The test's second lookup: a file inside `dir1`. */
  lemma SampleLookupNested()
    ensures Resolve(SampleRoot(), "dir1/file2.txt") == Ok(SampleFile2())
  {
    NestedSegments();
    NestedWalk();
  }

  lemma NestedWalk()
    ensures Walk(SampleRoot(), ["dir1", "file2.txt"]) == Ok(SampleFile2())
  {
    assert Walk(SampleDir1(), ["file2.txt"]) == Ok(SampleFile2());
  }

  lemma NestedSegments()
    ensures Segments("dir1/file2.txt") == ["dir1", "file2.txt"]
  {
    assert "dir1/file2.txt" == Join(["dir1", "file2.txt"], '/');
    SegmentsOfClean("dir1/file2.txt", ["dir1", "file2.txt"]);
  }

  /** The test's failing lookup: a name that is not in the root, such as
      `nonexistent`, fails with "No such file or directory". */
  lemma SampleLookupMissing(name: string)
    requires name != [] && !IsStripChar(name[0]) && !IsStripChar(name[|name| - 1]) && '/' !in name
    requires name != "file1.txt" && name != "dir1"
    ensures Resolve(SampleRoot(), name) == Err(FsError(NotFound, name))
  {
    SegmentsOfClean(name, [name]);
    assert FirstNamed(SampleRoot().contents, name) == 2;
  }

  /** Descending below a file, as in `file1.txt/x`, fails with "Not a
      directory". */
  lemma SampleLookupThroughFile(rest: string)
    requires rest != [] && !IsStripChar(rest[|rest| - 1]) && '/' !in rest
    ensures Resolve(SampleRoot(), "file1.txt/" + rest) == Err(FsError(NotADirectory, "file1.txt/" + rest))
  {
    var path := "file1.txt/" + rest;
    assert path == Join(["file1.txt", rest], '/');
    assert path[0] == 'f' && path[|path| - 1] == rest[|rest| - 1];
    SegmentsOfClean(path, ["file1.txt", rest]);
    assert Walk(SampleFile1(), [rest]) == Err(NotADirectory);
    assert Walk(SampleRoot(), ["file1.txt", rest]) == Err(NotADirectory);
  }

  /** The strip is by character set, so a dot-name is looked up without its
      leading dot: `.hidden` names the entry `hidden`. */
  lemma HiddenNameStripped(name: string)
    ensures Segments("." + name) == Segments(name)
  {
    StripPrefixIgnored(".", name);
  }

  /** Any leading run of `.` and `/` is ignored: `../dir1` resolves as
      `dir1` does, and only the path quoted in an error differs. */
  lemma LeadingStripIgnored(root: Node, prefix: string, path: string)
    requires forall i :: 0 <= i < |prefix| ==> IsStripChar(prefix[i])
    ensures Resolve(root, prefix + path) == match Resolve(root, path)
      case Ok(n) => Ok(n)
      case Err(e) => Err(FsError(e.kind, prefix + path))
  {
    StripPrefixIgnored(prefix, path);
  }

  /** `../dir1` resolves to `dir1`. */
  lemma ParentPrefixStripped()
    ensures Resolve(SampleRoot(), "../dir1") == Ok(SampleDir1())
  {
    DirSegments();
    DirWalk();
    assert "../dir1" == "../" + "dir1";
    LeadingStripIgnored(SampleRoot(), "../", "dir1");
  }

  lemma DirWalk()
    ensures Walk(SampleRoot(), ["dir1"]) == Ok(SampleDir1())
  {
    assert FirstNamed(SampleRoot().contents, "dir1") == 1;
  }

  lemma DirSegments()
    ensures Segments("dir1") == ["dir1"]
  {
    SegmentsOfClean("dir1", ["dir1"]);
  }
}
