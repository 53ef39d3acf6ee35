# pyls in Dafny

`pyls` is an `ls` look-alike. It lists a filesystem tree that was captured as
JSON ahead of time: each entry has a `name`, a `size`, a `time_modified`
timestamp and a `permissions` string, and an entry is a directory exactly
when it carries a `contents` list. This project models the core of
`src/pyls.py`:

- resolving a slash-separated path against the tree (`find_item`);
- listing one entry (`list_contents`). For a directory this means:
  - sort its `contents` in place, by lower-cased name or by modification time;
  - drop hidden entries and entries of the filtered-out kind;
  - print one line per remaining entry (`print_item`), in short or long format;
- rendering the size column (`format_size`) as a plain integer or with a
  binary unit suffix.

Modules:

- `Tree`: the entry type. `Node` is `File` or `Dir`, and only `Dir` has `contents`.
- `Text`: the Python string built-ins the lister relies on, written out over
  `seq<char>`:
  - `strip('./')` and `split('/')`;
  - ASCII `lower()`;
  - string `<`;
  - `str(int)` and `rjust`.
- `PathResolver`: `find_item` as a loop over the path segments (`FindItem`),
  specified by the recursive lookup `Walk`. A failed lookup is a `Result`
  error carrying the path and one of two kinds, `NotFound` or `NotADirectory`.
- `Sorting`: Python's stable `list.sort(key=..., reverse=...)`.
  - `SortSeq` is an insertion sort on sequences and serves as the reference.
  - `SortInPlace` is the same insertion sort on an `array`, proved equal to it.
  - `reverse=True` is modelled as "descending keys, ties in original order", which is what Python does.
- `SizeFormat`: `format_size` as the dividing loop (`FormatSize`), proved equal
  to the closed form `SizeText`. The one-decimal rendering is computed exactly
  with integers and rounds a tie to the even tenth.
- `Listing`: `list_contents` and `print_item`.
  - The output is the sequence of printed lines.
  - The timestamp column comes from a `formatTime` parameter.

The tests in `tests/test_pyls.py:6-7` expect `format_size(1024, True)` to be
`"   1.0K"` and `format_size(1048576, True)` to be `"   1.0M"`, which are seven
characters. The code pads with `rjust(8)`, so it returns eight characters,
`"    1.0K"` and `"    1.0M"`. The model follows the code (`SizeFormat.KibibyteSample`,
`SizeFormat.MebibyteSample`).

## Model

| member | source | states |
|---|---|---|
| Tree.DirectoryHasContents | src/pyls.py:41-42 | `is_directory`: a node is a directory exactly when it is the same record with some `contents` list attached |
| Tree.DirectoryDiscriminator | tests/test_pyls.py:9-11 | a node with an empty `contents` is a directory; a node without `contents` is not |
| Text.Strip | src/pyls.py:45 | `strip('./')` gives the empty string exactly when every character is `.` or `/`; otherwise the result begins and ends with neither |
| Text.StripKeepsMiddle | src/pyls.py:45 | the stripped string is a contiguous middle part of the input, and everything removed before and after it is `.` or `/` |
| Text.Split | src/pyls.py:45 | `split('/')` yields at least one part, no part holds `/`, and joining the parts with `/` gives the input back |
| Text.SplitJoin | src/pyls.py:45 | splitting the join of `/`-free parts gives the same parts back, so split and join are inverses |
| Text.StripPrefixIgnored | src/pyls.py:45 | a leading run of `.` and `/` changes neither the left trim nor the strip |
| Text.Lower | src/pyls.py:70 | `lower()` keeps the length and folds each character on its own: `A`-`Z` to `a`-`z`, everything else unchanged |
| Text.LowerNoCapitals | src/pyls.py:70 | `lower()` leaves a string without ASCII capitals unchanged |
| Text.StrLessTransitive | src/pyls.py:70 | the string order the name sort uses is transitive |
| Text.StrLessTotal | src/pyls.py:70 | any two different strings are ordered one way or the other |
| Text.NatToStringValue | src/pyls.py:33 | reading the decimal digits of `str(n)` back gives `n` |
| Text.RightJustify | src/pyls.py:33-39 | `rjust(w)`: the length is `max(w, len)`, the text sits at the right end, and spaces fill the left |
| PathResolver.Message | src/pyls.py:53-55 | the message is `Cannot access '`, then the path exactly as given, then `': ` and the reason for that kind |
| PathResolver.FirstNamed | src/pyls.py:51 | the index found is that of the first child with the name, or the end of `contents` when no child has it |
| PathResolver.FindItem | src/pyls.py:44-56 | the loop over the segments returns what the recursive lookup `Resolve` gives: the node, `NotFound` or `NotADirectory`, with the path |
| PathResolver.WalkAppend | src/pyls.py:47-55 | walking `p + q` is walking `p`, then walking `q` from where `p` ended |
| PathResolver.WalkAllEmpty | src/pyls.py:48-49 | segments that are all empty leave the lookup at the node it started from |
| PathResolver.ResolveToRoot | src/pyls.py:45-49 | a path resolves to the root itself exactly when it consists only of `.` and `/` (`.`, `""`, `./`, `//`) |
| PathResolver.WalkFailsWhen | src/pyls.py:50-55 | after a successful prefix, a non-empty segment fails with `NotADirectory` if the current node is a file, and with `NotFound` if no child has that name |
| PathResolver.WalkFailsAt | src/pyls.py:50-55 | conversely, every failure happens at one non-empty segment for one of those two reasons |
| PathResolver.WalkReaches | src/pyls.py:47-56 | a successful lookup ends at a node reached by descending, one child at a time, along the non-empty segments |
| PathResolver.WalkLandsOnLast | src/pyls.py:47-56 | when there is a non-empty segment, the node found is named after the last one and lies strictly below the start |
| PathResolver.WalkAllEmptyNames | src/pyls.py:47-49 | with no non-empty segment the lookup stays at its starting node |
| PathResolver.ReachesWalk | src/pyls.py:47-56 | where sibling names are unique, every node reachable along the segments is what the lookup returns |
| PathResolver.SampleLookupFile | tests/test_pyls.py:13-21 | `file1.txt` resolves to that file |
| PathResolver.SampleLookupNested | tests/test_pyls.py:13-22 | `dir1/file2.txt` resolves to the file inside `dir1` |
| PathResolver.SampleLookupMissing | tests/test_pyls.py:23-24 | a name with no `/`, not beginning or ending with `.` or `/`, and other than `file1.txt` and `dir1` (such as `nonexistent`) fails with `NotFound` and carries the path |
| PathResolver.SampleLookupThroughFile | src/pyls.py:54-55 | `file1.txt/` followed by one segment with no `/` that does not end with `.` or `/` (such as `file1.txt/x`) fails with `NotADirectory` and carries the path |
| PathResolver.HiddenNameStripped | src/pyls.py:45 | the strip works by character set, so `.hidden` is split as `hidden` is |
| PathResolver.LeadingStripIgnored | src/pyls.py:45-55 | a leading run of `.` and `/` does not change the lookup; only the path quoted in an error differs |
| PathResolver.ParentPrefixStripped | src/pyls.py:45 | `../dir1` resolves to `dir1` |
| Sorting.PrecedesAsymmetric | src/pyls.py:67-70 | strictly-before is asymmetric and never holds between equal keys |
| Sorting.PrecedesTotal | src/pyls.py:67-70 | two entries with different keys are ordered one way or the other |
| Sorting.SortSeq | src/pyls.py:67-70 | the reference sort keeps the length; that it is an ordered, stable permutation is stated by `SortPermutes`, `SortSorted` and `SortStable` |
| Sorting.InsertPermutes | src/pyls.py:67-70 | one insertion step adds exactly the new entry to the multiset |
| Sorting.SortPermutes | src/pyls.py:67-70 | the sort returns a permutation of its input |
| Sorting.SortSorted | src/pyls.py:67-70 | the sort's output is ordered by the key: ascending, or descending with `reverse` |
| Sorting.SortStable | src/pyls.py:67-70 | for every key, the entries with that key keep their relative order (stability, for `reverse` too) |
| Sorting.SortedUnchanged | src/pyls.py:67-70 | an already ordered list is left as it is |
| Sorting.SortIdempotent | src/pyls.py:67-70 | sorting twice is sorting once |
| Sorting.SortInPlace | src/pyls.py:67-70 | the in-place array sort leaves the array equal to `SortSeq` of its old contents |
| Sorting.ShiftRight | src/pyls.py:67-70 | entries that the new one must precede move one place right; the rest stay |
| Sorting.InsertLast | src/pyls.py:67-70 | the prefix grows by one insertion step and the rest of the array is unchanged |
| Sorting.ReverseKeepsTies | src/pyls.py:70 | names that differ only in case keep their order with and without `reverse`, so `reverse` is not the reversed ascending list |
| SizeFormat.SizeUnit | src/pyls.py:35-39 | the chosen unit `k` brackets the size: `1024**k <= size`, and `size < 1024**(k+1)` unless the unit is `Y` |
| SizeFormat.SizeUnitSmallest | src/pyls.py:35-39 | only one unit brackets a size, and every earlier division step left the value at 1024 or more |
| SizeFormat.RoundHalfEven | src/pyls.py:37-39 | the tenths are rounded to the nearest value, and a tie goes to the even one |
| SizeFormat.OneDecimalValue | src/pyls.py:37-39 | the number is digits, a point and one digit, and read back it is the rounded number of tenths of `size / 1024**k` |
| SizeFormat.FormatSize | src/pyls.py:31-39 | the dividing loop returns the closed-form column `SizeText` |
| SizeFormat.SizeTextShape | src/pyls.py:31-39 | the column is at least 8 wide; the plain branch ends with the digits of the size, and the human-readable one with the letter `K`…`Z` or `Y` of its unit |
| SizeFormat.PlainSample | tests/test_pyls.py:5 | `format_size(1000)` is `"    1000"` |
| SizeFormat.KibibyteSample | src/pyls.py:37 | `format_size(1024, True)` is `1.0K` in eight columns |
| SizeFormat.MebibyteSample | src/pyls.py:37 | `format_size(1048576, True)` is `1.0M` in eight columns |
| SizeFormat.HalfwaySample | src/pyls.py:37 | `1280` bytes, exactly `1.25K`, prints as `1.2K` |
| Listing.Visible | src/pyls.py:72-80 | an entry survives the filter exactly when it is in the list and passes the hidden and kind tests |
| Listing.VisiblePermutation | src/pyls.py:72-80 | filtering two permutations of each other gives permutations of each other |
| Listing.VisibleSorted | src/pyls.py:67-80 | filtering keeps the sort order |
| Listing.VisibleKeyClass | src/pyls.py:67-80 | filtering and picking one key's entries can be done in either order |
| Listing.FormatPermissions | src/pyls.py:25-26 | `format_permissions` returns the stored permission string unchanged |
| Listing.LineLayout | src/pyls.py:84-92 | the long line begins with the permissions and a space, continues with the size column, and ends with a space and the name; the short line is the name alone |
| Listing.PrintItem | src/pyls.py:84-92 | the printed line is the name alone, or, with `-l`, the permissions, the size column, the time and the name joined by spaces |
| Listing.ListContents | src/pyls.py:58-82 | a file prints its own line; a directory is sorted in place and prints one line per shown entry of the sorted list |
| Listing.PrintEntries | src/pyls.py:72-82 | the printing loop emits the lines of exactly the shown entries, in array order |
| Listing.FileListsItself | src/pyls.py:61-63 | a file lists as its own single line whatever the sort, reverse, hidden and filter settings |
| Listing.LinesOfEmitted | src/pyls.py:72-82 | a directory prints one line per emitted entry, in order |
| Listing.EmittedEntries | src/pyls.py:72-80 | the printed entries are exactly the shown entries of `contents`, each as often as it occurs: no dot-names without `-a`, no directories under `--filter=file`, no files under `--filter=dir` |
| Listing.EmittedOrder | src/pyls.py:67-70 | with `-t` entries print newest first, oldest first with `-r`; otherwise lower-cased names ascend, or descend with `-r` |
| Listing.EmittedStable | src/pyls.py:67-80 | printed entries with equal keys keep their original relative order |
| Listing.ContentsSortedInPlace | src/pyls.py:65-70 | afterwards the directory's `contents` is a permutation of the old one, ordered by the key, with ties in their former order; nothing else changes |
| Listing.ListingIdempotent | src/pyls.py:58-82 | listing the same node twice with the same options prints the same lines, and the second sort changes nothing |
| Listing.ShortListing | src/pyls.py:91-92 | without `-l` a directory listing prints just the names |
| Listing.MixedListing | src/pyls.py:67-82 | entries `B`, `a`, `.hidden` list as `a`, `B` with no flags |
| Listing.MixedListingAll | src/pyls.py:67-82 | with `-a` they list as `.hidden`, `a`, `B` |

## Left out

- `parse_args`, `load_json` and `main` are left out. They cover argument parsing, reading `structure.json` and printing the error to stderr with exit status 1. The options arrive as an `Options` value, and the tree as a `Node`.
- `format_time` is a parameter (`formatTime: int -> string`), because its output depends on the local timezone and `strftime`.
- `print` is modelled as the sequence of lines written, without the newline.
- Keys missing from an entry are not modelled. In the source they raise `KeyError`. Every `Node` carries `name`, `size`, `time_modified` and `permissions`.
- Float arithmetic in the human-readable size is not modelled. The division by 1024 and the `.1f` rendering are done exactly with integers. This matches the floating-point result for sizes below 2**53, where every `size / 1024**k` is exact.
- `SizeFormat.FormatSize`: sizes of 2**53 bytes or more may round differently in the source's floats. The `abs()` in the loop is dropped, because the loop is only entered with a positive size.
- `Sorting.SortSeq`: its own contract states only the length. That it is a permutation, ordered by the key and stable is proved in the separate lemmas `Sorting.SortPermutes`, `Sorting.SortSorted` and `Sorting.SortStable`, so that callers of the recursive function do not carry those facts into every proof.
- `Text.Strip`: its own contract states the shape of the result. That the result is the middle of the input, with only `.` and `/` removed around it, is the separate lemma `Text.StripKeepsMiddle`, so that lookups of literal paths do not unfold it.
- `Text.Lower`: folds ASCII letters only. Python's `str.lower` also folds non-ASCII letters.
- `Listing.ListContents`: the source sorts the caller's `contents` list in place, and the caller's tree sees the change. The model sorts a fresh array and returns the updated node. Aliasing of that list elsewhere in the tree is not represented.
