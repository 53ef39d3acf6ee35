/** `list_contents` and `print_item`: sorting a directory's `contents` in
    place, dropping hidden entries and entries of the filtered-out kind, and
    printing one line per remaining entry. Printing is modelled as the
    sequence of lines written; the time column comes from a `formatTime`
    parameter, since rendering a timestamp depends on the local timezone. */
module Listing {
  import opened Tree
  import opened Text
  import opened Sorting
  import opened SizeFormat

  /** `--filter`: absent, `file` or `dir`. */
  datatype FilterType = NoFilter | FileOnly | DirOnly

  /** The flags `list_contents` takes: `-a`, `-l`, `-r`, `-t`, `--filter`, `-H`. */
  datatype Options = Options(
    showAll: bool,
    longFormat: bool,
    reverse: bool,
    sortByTime: bool,
    filter: FilterType,
    humanReadable: bool)

  /** The `sort` call: `-t` sorts by time with `reverse=not reverse`, so newest
      first by default; otherwise by lower-cased name with `reverse=reverse`. */
  function OrderOf(opts: Options): Order {
    if opts.sortByTime then Order(ByTime, !opts.reverse) else Order(ByName, opts.reverse)
  }

  /** `name.startswith('.')` */
  predicate IsHidden(e: Node) {
    |e.name| > 0 && e.name[0] == '.'
  }

  /** The entry survives the three `continue` tests of the printing loop. */
  predicate Shown(e: Node, opts: Options) {
    && (opts.showAll || !IsHidden(e))
    && !(opts.filter == FileOnly && IsDirectory(e))
    && !(opts.filter == DirOnly && !IsDirectory(e))
  }

  /** The entries of `s` that are shown, in their order in `s`. */
  function Visible(s: seq<Node>, opts: Options): (r: seq<Node>)
    ensures |r| <= |s|
    ensures forall e :: e in r <==> e in s && Shown(e, opts)
  {
    if s == [] then []
    else
      var init := s[..|s| - 1];
      assert s == init + [s[|s| - 1]];
      Visible(init, opts) + (if Shown(s[|s| - 1], opts) then [s[|s| - 1]] else [])
  }

  /** `format_permissions`: the permission string as stored. */
  function FormatPermissions(permissions: string): (r: string)
    ensures r == permissions
  {
    permissions
  }

  /** The line `print_item` writes: the name, or in long format the
      permissions, the size column, the time and the name, space-separated. */
  function ItemLine(e: Node, longFormat: bool, humanReadable: bool, formatTime: int -> string): string {
    if longFormat then
      FormatPermissions(e.permissions) + " " + SizeText(e.size, humanReadable) + " " +
      formatTime(e.timeModified) + " " + e.name
    else e.name
  }

  /** The long line starts with the stored permissions and a space, then
      the size column, and ends with a space and the name; the short line is
      the name alone. */
  lemma LineLayout(e: Node, humanReadable: bool, formatTime: int -> string)
    ensures var line := ItemLine(e, true, humanReadable, formatTime);
      var p := |e.permissions|; var size := SizeText(e.size, humanReadable);
      && |line| >= p + 1 + |size| + 1 + |e.name|
      && line[..p + 1] == e.permissions + " "
      && line[p + 1..p + 1 + |size|] == size
      && line[|line| - |e.name| - 1..] == " " + e.name
    ensures ItemLine(e, false, humanReadable, formatTime) == e.name
  {
    FieldsJoined(ItemLine(e, true, humanReadable, formatTime), e.permissions,
      SizeText(e.size, humanReadable), formatTime(e.timeModified), e.name);
  }

  /** Four fields joined by single spaces can be read back from the front
      and from the back. */
  lemma FieldsJoined(line: string, p: string, size: string, time: string, name: string)
    requires line == p + " " + size + " " + time + " " + name
    ensures |line| >= |p| + 1 + |size| + 1 + |name|
    ensures line[..|p| + 1] == p + " "
    ensures line[|p| + 1..|p| + 1 + |size|] == size
    ensures line[|line| - |name| - 1..] == " " + name
  {
    var head := p + " " + size;
    assert line == head + (" " + time + " " + name);
    assert line[..|p| + 1] == head[..|p| + 1];
    assert line[|p| + 1..|p| + 1 + |size|] == head[|p| + 1..];
    assert line == (head + " " + time) + (" " + name);
  }

  /** One line per entry, in order. */
  function Lines(s: seq<Node>, opts: Options, formatTime: int -> string): seq<string> {
    seq(|s|, i requires 0 <= i < |s| => ItemLine(s[i], opts.longFormat, opts.humanReadable, formatTime))
  }

  /** The entries a directory listing prints: its sorted contents, filtered. */
  function Emitted(item: Node, opts: Options): seq<Node>
    requires IsDirectory(item)
  {
    Visible(SortSeq(item.contents, OrderOf(opts)), opts)
  }

  /** Everything `list_contents(item, ...)` prints. */
  function ListingLines(item: Node, opts: Options, formatTime: int -> string): seq<string> {
    if !IsDirectory(item) then [ItemLine(item, opts.longFormat, opts.humanReadable, formatTime)]
    else Lines(Emitted(item, opts), opts, formatTime)
  }

  /** The listed node afterwards: a directory's `contents` has been sorted in
      place; a file is untouched. */
  function AfterListing(item: Node, opts: Options): Node {
    if IsDirectory(item) then item.(contents := SortSeq(item.contents, OrderOf(opts))) else item
  }

  /** `print_item` */
  method PrintItem(e: Node, longFormat: bool, humanReadable: bool, formatTime: int -> string)
    returns (line: string)
    ensures line == ItemLine(e, longFormat, humanReadable, formatTime)
  {
    if longFormat {
      var permissions := FormatPermissions(e.permissions);
      var size := FormatSize(e.size, humanReadable);
      var time := formatTime(e.timeModified);
      line := permissions + " " + size + " " + time + " " + e.name;
    } else {
      line := e.name;
    }
  }

  /** `list_contents`: returns the listed node as the call leaves it and the
      lines printed. */
  method ListContents(item: Node, opts: Options, formatTime: int -> string)
    returns (listed: Node, out: seq<string>)
    ensures listed == AfterListing(item, opts)
    ensures out == ListingLines(item, opts, formatTime)
  {
    if !IsDirectory(item) {
      var line := PrintItem(item, opts.longFormat, opts.humanReadable, formatTime);
      return item, [line];
    }
    var contents := new Node[|item.contents|](i requires 0 <= i < |item.contents| => item.contents[i]);
    assert contents[..] == item.contents;
    SortInPlace(contents, OrderOf(opts));
    listed := item.(contents := contents[..]);
    out := PrintEntries(contents, opts, formatTime);
  }

  /** The printing loop of `list_contents` over the sorted entries. */
  method PrintEntries(entries: array<Node>, opts: Options, formatTime: int -> string)
    returns (out: seq<string>)
    ensures out == Lines(Visible(entries[..], opts), opts, formatTime)
  {
    out := [];
    for i := 0 to entries.Length
      invariant out == Lines(Visible(entries[..i], opts), opts, formatTime)
    {
      var entry := entries[i];
      assert entries[..i + 1] == entries[..i] + [entry];
      PrintStep(entries[..i], entry, opts, formatTime);
      if !opts.showAll && IsHidden(entry) {
        continue;
      }
      if opts.filter == FileOnly && IsDirectory(entry) {
        continue;
      }
      if opts.filter == DirOnly && !IsDirectory(entry) {
        continue;
      }
      var line := PrintItem(entry, opts.longFormat, opts.humanReadable, formatTime);
      out := out + [line];
    }
    assert entries[..entries.Length] == entries[..];
  }

  /** One round of the printing loop: a shown entry adds its line, any
      other entry adds nothing. */
  lemma PrintStep(prefix: seq<Node>, e: Node, opts: Options, formatTime: int -> string)
    ensures Lines(Visible(prefix + [e], opts), opts, formatTime)
      == Lines(Visible(prefix, opts), opts, formatTime)
         + (if Shown(e, opts) then [ItemLine(e, opts.longFormat, opts.humanReadable, formatTime)] else [])
  {
    var v := Visible(prefix, opts);
    VisibleAppend(prefix, e, opts);
    if Shown(e, opts) {
      LinesAppend(v, e, opts, formatTime);
    } else {
      assert Visible(prefix + [e], opts) == v;
    }
  }

  lemma LinesAppend(s: seq<Node>, e: Node, opts: Options, formatTime: int -> string)
    ensures Lines(s + [e], opts, formatTime)
      == Lines(s, opts, formatTime) + [ItemLine(e, opts.longFormat, opts.humanReadable, formatTime)]
  {
    var longer := Lines(s + [e], opts, formatTime);
    var shorter := Lines(s, opts, formatTime);
    assert |longer| == |shorter| + 1;
    forall k | 0 <= k < |shorter| ensures longer[k] == shorter[k] {
      assert (s + [e])[k] == s[k];
    }
    assert longer[|shorter|] == ItemLine(e, opts.longFormat, opts.humanReadable, formatTime);
  }

  // ---------------------------------------------------------------------
  // Properties of the filter

  lemma {:induction false} VisibleCount(s: seq<Node>, opts: Options, e: Node)
    ensures multiset(Visible(s, opts))[e] == if Shown(e, opts) then multiset(s)[e] else 0
    decreases |s|
  {
    if s != [] {
      var init := s[..|s| - 1];
      VisibleCount(init, opts, e);
      assert s == init + [s[|s| - 1]];
    }
  }

  /** Filtering two permutations of each other gives permutations. */
  lemma VisiblePermutation(s: seq<Node>, t: seq<Node>, opts: Options)
    requires multiset(s) == multiset(t)
    ensures multiset(Visible(s, opts)) == multiset(Visible(t, opts))
  {
    forall e ensures multiset(Visible(s, opts))[e] == multiset(Visible(t, opts))[e] {
      VisibleCount(s, opts, e);
      VisibleCount(t, opts, e);
    }
  }

  lemma {:induction false} VisibleSorted(s: seq<Node>, opts: Options, o: Order)
    requires Sorted(s, o)
    ensures Sorted(Visible(s, opts), o)
    decreases |s|
  {
    if s != [] {
      var init := s[..|s| - 1];
      var last := s[|s| - 1];
      assert Sorted(init, o);
      VisibleSorted(init, opts, o);
      var v := Visible(init, opts);
      forall i | 0 <= i < |v| ensures !Precedes(last, v[i], o) {
        assert v[i] in init;
        var k :| 0 <= k < |init| && init[k] == v[i];
        assert s[k] == v[i];
      }
    }
  }

  lemma VisibleAppend(s: seq<Node>, e: Node, opts: Options)
    ensures Visible(s + [e], opts) == Visible(s, opts) + (if Shown(e, opts) then [e] else [])
  {
    assert (s + [e])[..|s|] == s;
  }

  /** The filter and the key classes can be taken in either order. */
  lemma {:induction false} VisibleKeyClass(s: seq<Node>, opts: Options, n: Node, o: Order)
    ensures KeyClass(Visible(s, opts), n, o) == Visible(KeyClass(s, n, o), opts)
    decreases |s|
  {
    if s != [] {
      var init := s[..|s| - 1];
      var last := s[|s| - 1];
      assert s == init + [last];
      VisibleKeyClass(init, opts, n, o);
      var both := if Shown(last, opts) && SameKey(last, n, o) then [last] else [];
      if Shown(last, opts) {
        assert Visible(s, opts) == Visible(init, opts) + [last];
        KeyClassAppend(Visible(init, opts), last, n, o);
      } else {
        assert Visible(s, opts) == Visible(init, opts);
      }
      assert KeyClass(Visible(s, opts), n, o) == KeyClass(Visible(init, opts), n, o) + both;
      if SameKey(last, n, o) {
        assert KeyClass(s, n, o) == KeyClass(init, n, o) + [last];
        VisibleAppend(KeyClass(init, n, o), last, opts);
      } else {
        assert KeyClass(s, n, o) == KeyClass(init, n, o);
      }
      assert Visible(KeyClass(s, n, o), opts) == Visible(KeyClass(init, n, o), opts) + both;
    }
  }

  // ---------------------------------------------------------------------
  // What a listing prints

  /** A file lists as exactly one line, its own, whatever the sort, reverse,
      filter and hidden-entry settings. */
  lemma FileListsItself(item: Node, opts1: Options, opts2: Options, formatTime: int -> string)
    requires !IsDirectory(item)
    requires opts1.longFormat == opts2.longFormat && opts1.humanReadable == opts2.humanReadable
    ensures ListingLines(item, opts1, formatTime) == ListingLines(item, opts2, formatTime)
    ensures ListingLines(item, opts1, formatTime) == [ItemLine(item, opts1.longFormat, opts1.humanReadable, formatTime)]
  {
  }

  /** The printed lines are those of the emitted entries, one each, in order. */
  lemma LinesOfEmitted(item: Node, opts: Options, formatTime: int -> string)
    requires IsDirectory(item)
    ensures var lines := ListingLines(item, opts, formatTime);
      var es := Emitted(item, opts);
      && |lines| == |es|
      && forall i :: 0 <= i < |es| ==> lines[i] == ItemLine(es[i], opts.longFormat, opts.humanReadable, formatTime)
  {
  }

  /** A directory prints its shown entries and nothing else: each entry of
      `contents` that passes the hidden-name and kind tests, as many times as
      it occurs. With `-a` off no dot-name is printed; with `--filter=file`
      no directory; with `--filter=dir` no file. */
  lemma EmittedEntries(item: Node, opts: Options)
    requires IsDirectory(item)
    ensures multiset(Emitted(item, opts)) == multiset(Visible(item.contents, opts))
    ensures forall e :: e in Emitted(item, opts) <==> e in item.contents && Shown(e, opts)
    ensures forall e :: e in Emitted(item, opts) ==>
      && (!opts.showAll ==> !IsHidden(e))
      && (opts.filter == FileOnly ==> !IsDirectory(e))
      && (opts.filter == DirOnly ==> IsDirectory(e))
  {
    var sorted := SortSeq(item.contents, OrderOf(opts));
    SortPermutes(item.contents, OrderOf(opts));
    VisiblePermutation(sorted, item.contents, opts);
    forall e ensures e in sorted <==> e in item.contents {
      assert e in sorted <==> e in multiset(sorted);
    }
  }

  /** The printed entries come in sort order: with `-t`, newest first (oldest
      first with `-r`); otherwise lower-cased names ascending (descending
      with `-r`). */
  lemma EmittedOrder(item: Node, opts: Options)
    requires IsDirectory(item)
    ensures var es := Emitted(item, opts);
      forall i, j :: 0 <= i < j < |es| ==>
        && (opts.sortByTime && !opts.reverse ==> es[i].timeModified >= es[j].timeModified)
        && (opts.sortByTime && opts.reverse ==> es[i].timeModified <= es[j].timeModified)
        && (!opts.sortByTime && !opts.reverse ==> !StrLess(NameKey(es[j]), NameKey(es[i])))
        && (!opts.sortByTime && opts.reverse ==> !StrLess(NameKey(es[i]), NameKey(es[j])))
  {
    var o := OrderOf(opts);
    SortSorted(item.contents, o);
    VisibleSorted(SortSeq(item.contents, o), opts, o);
  }

  /** Entries with equal keys are printed in their original relative order. */
  lemma EmittedStable(item: Node, opts: Options, n: Node)
    requires IsDirectory(item)
    ensures var o := OrderOf(opts);
      KeyClass(Emitted(item, opts), n, o) == KeyClass(Visible(item.contents, opts), n, o)
  {
    var o := OrderOf(opts);
    VisibleKeyClass(SortSeq(item.contents, o), opts, n, o);
    SortStable(item.contents, n, o);
    VisibleKeyClass(item.contents, opts, n, o);
  }

  /** After the call, the directory's `contents` is a permutation of what it
      was, ordered by the sort key, with equal keys in their former order. */
  lemma ContentsSortedInPlace(item: Node, opts: Options, n: Node)
    requires IsDirectory(item)
    ensures var after := AfterListing(item, opts); var o := OrderOf(opts);
      && after == item.(contents := after.contents)
      && multiset(after.contents) == multiset(item.contents)
      && Sorted(after.contents, o)
      && KeyClass(after.contents, n, o) == KeyClass(item.contents, n, o)
  {
    SortPermutes(item.contents, OrderOf(opts));
    SortSorted(item.contents, OrderOf(opts));
    SortStable(item.contents, n, OrderOf(opts));
  }

  /** Listing the same node twice with the same options prints the same
      lines, and the second sort changes nothing. */
  lemma ListingIdempotent(item: Node, opts: Options, formatTime: int -> string)
    ensures AfterListing(AfterListing(item, opts), opts) == AfterListing(item, opts)
    ensures ListingLines(AfterListing(item, opts), opts, formatTime) == ListingLines(item, opts, formatTime)
  {
    if IsDirectory(item) {
      SortIdempotent(item.contents, OrderOf(opts));
    }
  }

  // ---------------------------------------------------------------------
  // A directory holding `B`, `a` and `.hidden`

  const FileB: Node := File("B", 0, 0, "-rw-r--r--")
  const FileA: Node := File("a", 0, 0, "-rw-r--r--")
  const FileHidden: Node := File(".hidden", 0, 0, "-rw-r--r--")
  const MixedDir: Node := Dir("mixed", 0, 0, "drwxr-xr-x", [FileB, FileA, FileHidden])

  const Plain: Options := Options(false, false, false, false, NoFilter, false)

  lemma MixedKeys()
    ensures NameKey(FileB) == "b" && NameKey(FileA) == "a" && NameKey(FileHidden) == ".hidden"
  {
    assert Lower("B") == [LowerChar('B')] + Lower("");
    LowerNoCapitals("a");
    LowerNoCapitals(".hidden");
  }

  lemma MixedPrecedes()
    ensures var o := Order(ByName, false);
      Precedes(FileA, FileB, o) && Precedes(FileHidden, FileA, o) && Precedes(FileHidden, FileB, o)
  {
    MixedKeys();
    assert StrLess("a", "b");
    assert StrLess(".hidden", "a");
    assert StrLess(".hidden", "b");
  }

  lemma MixedFirstTwo()
    ensures SortSeq(MixedDir.contents[..2], Order(ByName, false)) == [FileA, FileB]
  {
    var o := Order(ByName, false);
    MixedPrecedes();
    var s := MixedDir.contents[..2];
    assert s[..1][..0] == [];
    assert SortSeq(s[..1], o) == [FileB];
    assert Insert([FileB], FileA, o) == Insert([], FileA, o) + [FileB];
  }

  lemma MixedInsertHidden()
    ensures Insert([FileA, FileB], FileHidden, Order(ByName, false)) == [FileHidden, FileA, FileB]
  {
    var o := Order(ByName, false);
    MixedPrecedes();
    assert Insert([], FileHidden, o) == [FileHidden];
    assert Insert([FileA], FileHidden, o) == [FileHidden, FileA];
  }

  /** Sorting by name ignores case and puts the dot-name first. */
  lemma MixedSorted()
    ensures SortSeq(MixedDir.contents, Order(ByName, false)) == [FileHidden, FileA, FileB]
  {
    var s := MixedDir.contents;
    MixedFirstTwo();
    MixedInsertHidden();
    assert s[..3] == s && s[..3][..2] == s[..2];
  }

  lemma MixedVisible(opts: Options)
    requires opts.filter == NoFilter
    ensures Visible([FileHidden, FileA, FileB], opts)
      == if opts.showAll then [FileHidden, FileA, FileB] else [FileA, FileB]
  {
    var sorted := [FileHidden, FileA, FileB];
    assert sorted[..2] == [FileHidden, FileA] && sorted[..2][..1] == [FileHidden];
    assert [FileHidden][..0] == [];
    assert Shown(FileA, opts) && Shown(FileB, opts);
    assert Shown(FileHidden, opts) == opts.showAll;
    var first := if opts.showAll then [FileHidden] else [];
    assert Visible([FileHidden], opts) == first;
    assert Visible(sorted[..2], opts) == first + [FileA];
    assert Visible(sorted, opts) == first + [FileA] + [FileB];
  }

  /** The names of the entries, in order. */
  function Names(s: seq<Node>): (r: seq<string>)
    ensures |r| == |s| && forall i :: 0 <= i < |s| ==> r[i] == s[i].name
  {
    if s == [] then [] else [s[0].name] + Names(s[1..])
  }

  /** Without `-l` a directory listing prints just the names. */
  lemma ShortListing(item: Node, opts: Options, formatTime: int -> string)
    requires IsDirectory(item) && !opts.longFormat
    ensures ListingLines(item, opts, formatTime) == Names(Emitted(item, opts))
  {
  }

  lemma MixedEmitted(opts: Options)
    requires opts.filter == NoFilter && !opts.sortByTime && !opts.reverse
    ensures Emitted(MixedDir, opts)
      == if opts.showAll then [FileHidden, FileA, FileB] else [FileA, FileB]
  {
    MixedSorted();
    MixedVisible(opts);
  }

  /** With no flags the listing is `a` then `B`: names compare without
      case and the dot-name is hidden. */
  lemma MixedListing(formatTime: int -> string)
    ensures ListingLines(MixedDir, Plain, formatTime) == ["a", "B"]
  {
    MixedEmitted(Plain);
    ShortListing(MixedDir, Plain, formatTime);
  }

  /** With `-a` the hidden entry is listed too, first. */
  lemma MixedListingAll(formatTime: int -> string)
    ensures ListingLines(MixedDir, Plain.(showAll := true), formatTime) == [".hidden", "a", "B"]
  {
    MixedEmitted(Plain.(showAll := true));
    ShortListing(MixedDir, Plain.(showAll := true), formatTime);
  }
}
