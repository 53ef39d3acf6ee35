/** `contents.sort(key=..., reverse=...)`: Python's stable list sort, as the
    lister uses it, with `reverse=True` meaning "descending keys, equal keys
    still in their original order" (not "sort, then reverse the list"). */
module Sorting {
  import opened Tree
  import opened Text

  /** Which key the entries are sorted by: the lower-cased name or `time_modified`. */
  datatype SortKey = ByName | ByTime

  /** The key and the `reverse` argument of one `sort` call. */
  datatype Order = Order(key: SortKey, descending: bool)

  /** `x['name'].lower()` */
  function NameKey(n: Node): string {
    Lower(n.name)
  }

  /** The two entries have equal sort keys. */
  predicate SameKey(a: Node, b: Node, o: Order) {
    match o.key
    case ByName => NameKey(a) == NameKey(b)
    case ByTime => a.timeModified == b.timeModified
  }

  /** `a` must come strictly before `b`: its key is smaller, or larger when
      the sort is descending. */
  predicate Precedes(a: Node, b: Node, o: Order) {
    match o.key
    case ByName =>
      if o.descending then StrLess(NameKey(b), NameKey(a)) else StrLess(NameKey(a), NameKey(b))
    case ByTime =>
      if o.descending then a.timeModified > b.timeModified else a.timeModified < b.timeModified
  }

  lemma PrecedesAsymmetric(a: Node, b: Node, o: Order)
    requires Precedes(a, b, o)
    ensures !Precedes(b, a, o) && !SameKey(a, b, o)
  {
    if o.key == ByName {
      if o.descending {
        StrLessAsymmetric(NameKey(b), NameKey(a));
        if NameKey(a) == NameKey(b) { StrLessIrreflexive(NameKey(a)); }
      } else {
        StrLessAsymmetric(NameKey(a), NameKey(b));
        if NameKey(a) == NameKey(b) { StrLessIrreflexive(NameKey(a)); }
      }
    }
  }

  /** Keys are totally ordered: two entries are ordered or have equal keys. */
  lemma PrecedesTotal(a: Node, b: Node, o: Order)
    ensures Precedes(a, b, o) || Precedes(b, a, o) || SameKey(a, b, o)
  {
    if o.key == ByName && NameKey(a) != NameKey(b) {
      StrLessTotal(NameKey(a), NameKey(b));
    }
  }

  /** "Not after" is transitive. */
  lemma PrecedesNegTransitive(a: Node, b: Node, c: Node, o: Order)
    requires !Precedes(a, b, o) && !Precedes(b, c, o)
    ensures !Precedes(a, c, o)
  {
    if o.key == ByName && Precedes(a, c, o) {
      var ka, kb, kc := NameKey(a), NameKey(b), NameKey(c);
      if o.descending {
        // kc < ka, with !(kb < ka) and !(kc < kb)
        if kb != ka { StrLessTotal(ka, kb); }
        if kb != kc { StrLessTotal(kb, kc); }
        if StrLess(ka, kb) && StrLess(kb, kc) { StrLessTransitive(ka, kb, kc); StrLessAsymmetric(kc, ka); }
        if kb == kc && StrLess(ka, kb) { StrLessAsymmetric(kc, ka); }
      } else {
        // ka < kc, with !(ka < kb) and !(kb < kc)
        if kb != ka { StrLessTotal(ka, kb); }
        if kb != kc { StrLessTotal(kb, kc); }
        if StrLess(kb, ka) && StrLess(kc, kb) { StrLessTransitive(kc, kb, ka); StrLessAsymmetric(ka, kc); }
        if kb == kc && StrLess(kb, ka) { StrLessAsymmetric(ka, kc); }
      }
    }
  }

  /** No entry is followed by one that must precede it. */
  ghost predicate Sorted(s: seq<Node>, o: Order) {
    forall i, j :: 0 <= i < j < |s| ==> !Precedes(s[j], s[i], o)
  }

  /** The entries of `s` whose key equals that of `n`, in their order in `s`. */
  function KeyClass(s: seq<Node>, n: Node, o: Order): seq<Node> {
    if s == [] then []
    else KeyClass(s[..|s| - 1], n, o) + (if SameKey(s[|s| - 1], n, o) then [s[|s| - 1]] else [])
  }

  /** One step of the insertion sort: `x` goes after the last entry it does
      not have to precede. */
  function Insert(r: seq<Node>, x: Node, o: Order): (r': seq<Node>)
    ensures |r'| == |r| + 1
  {
    if r == [] || !Precedes(x, r[|r| - 1], o) then r + [x]
    else
      Insert(r[..|r| - 1], x, o) + [r[|r| - 1]]
  }

  /** The list after `sort`: a permutation of the input. */
  function SortSeq(s: seq<Node>, o: Order): (r: seq<Node>)
    ensures |r| == |s|
  {
    if s == [] then []
    else
      Insert(SortSeq(s[..|s| - 1], o), s[|s| - 1], o)
  }

  /** One insertion step adds exactly the new entry. */
  lemma {:induction false} InsertPermutes(r: seq<Node>, x: Node, o: Order)
    ensures multiset(Insert(r, x, o)) == multiset(r) + multiset{x}
    decreases |r|
  {
    if r == [] || !Precedes(x, r[|r| - 1], o) {
      assert Insert(r, x, o) == r + [x];
    } else {
      var last := r[|r| - 1];
      var r' := r[..|r| - 1];
      assert r == r' + [last];
      assert Insert(r, x, o) == Insert(r', x, o) + [last];
      InsertPermutes(r', x, o);
      assert multiset(r) == multiset(r') + multiset{last};
    }
  }

  /** `sort` returns a permutation of its input. */
  lemma {:induction false} SortPermutes(s: seq<Node>, o: Order)
    ensures multiset(SortSeq(s, o)) == multiset(s)
    decreases |s|
  {
    if s != [] {
      var s' := s[..|s| - 1];
      var last := s[|s| - 1];
      assert s == s' + [last];
      assert SortSeq(s, o) == Insert(SortSeq(s', o), last, o);
      SortPermutes(s', o);
      InsertPermutes(SortSeq(s', o), last, o);
      assert multiset(s) == multiset(s') + multiset{last};
    }
  }

  lemma {:induction false} InsertSorted(r: seq<Node>, x: Node, o: Order)
    requires Sorted(r, o)
    ensures Sorted(Insert(r, x, o), o)
    decreases |r|
  {
    if r == [] {
    } else if !Precedes(x, r[|r| - 1], o) {
      var last := r[|r| - 1];
      forall i | 0 <= i < |r| ensures !Precedes(x, r[i], o) {
        if i < |r| - 1 { PrecedesNegTransitive(x, last, r[i], o); }
      }
    } else {
      var last := r[|r| - 1];
      var r' := r[..|r| - 1];
      InsertSorted(r', x, o);
      InsertPermutes(r', x, o);
      var ins := Insert(r', x, o);
      forall i | 0 <= i < |ins| ensures !Precedes(last, ins[i], o) {
        var e := ins[i];
        assert e in multiset(ins);
        if e == x {
          PrecedesAsymmetric(x, last, o);
        } else {
          assert e in multiset(r');
          var j :| 0 <= j < |r'| && r'[j] == e;
          assert r[j] == e;
        }
      }
    }
  }

  /** `sort` leaves the list ordered by its key. */
  lemma {:induction false} SortSorted(s: seq<Node>, o: Order)
    ensures Sorted(SortSeq(s, o), o)
    decreases |s|
  {
    if s != [] {
      SortSorted(s[..|s| - 1], o);
      InsertSorted(SortSeq(s[..|s| - 1], o), s[|s| - 1], o);
    }
  }

  lemma KeyClassAppend(s: seq<Node>, e: Node, n: Node, o: Order)
    ensures KeyClass(s + [e], n, o) == KeyClass(s, n, o) + (if SameKey(e, n, o) then [e] else [])
  {
    assert (s + [e])[..|s|] == s;
  }

  lemma {:induction false} InsertKeyClass(r: seq<Node>, x: Node, n: Node, o: Order)
    ensures KeyClass(Insert(r, x, o), n, o) == KeyClass(r, n, o) + (if SameKey(x, n, o) then [x] else [])
    decreases |r|
  {
    if r == [] || !Precedes(x, r[|r| - 1], o) {
      assert Insert(r, x, o) == r + [x];
      KeyClassAppend(r, x, n, o);
    } else {
      var last := r[|r| - 1];
      var r' := r[..|r| - 1];
      var ins' := Insert(r', x, o);
      var xs := if SameKey(x, n, o) then [x] else [];
      var ls := if SameKey(last, n, o) then [last] else [];
      assert r == r' + [last];
      assert Insert(r, x, o) == ins' + [last];
      InsertKeyClass(r', x, n, o);
      KeyClassAppend(ins', last, n, o);
      KeyClassAppend(r', last, n, o);
      PrecedesAsymmetric(x, last, o);
      NotBothSameKey(x, last, n, o);
      calc {
        KeyClass(Insert(r, x, o), n, o);
        KeyClass(ins', n, o) + ls;
        KeyClass(r', n, o) + xs + ls;
        { assert xs == [] || ls == []; }
        KeyClass(r', n, o) + ls + xs;
        KeyClass(r, n, o) + xs;
      }
    }
  }

  /** Two entries with different keys cannot both share the key of `n`. */
  lemma NotBothSameKey(a: Node, b: Node, n: Node, o: Order)
    requires !SameKey(a, b, o)
    ensures !(SameKey(a, n, o) && SameKey(b, n, o))
  {
  }

  /** Stability: for every key, the entries with that key keep their
      relative order through `sort`. */
  lemma {:induction false} SortStable(s: seq<Node>, n: Node, o: Order)
    ensures KeyClass(SortSeq(s, o), n, o) == KeyClass(s, n, o)
    decreases |s|
  {
    if s != [] {
      SortStable(s[..|s| - 1], n, o);
      InsertKeyClass(SortSeq(s[..|s| - 1], o), s[|s| - 1], n, o);
    }
  }

  /** An already ordered list is left as it is. */
  lemma {:induction false} SortedUnchanged(s: seq<Node>, o: Order)
    requires Sorted(s, o)
    ensures SortSeq(s, o) == s
    decreases |s|
  {
    if s != [] {
      var s' := s[..|s| - 1];
      var last := s[|s| - 1];
      SortedInit(s, o);
      SortedUnchanged(s', o);
      assert s == s' + [last];
    }
  }

  lemma SortedInit(s: seq<Node>, o: Order)
    requires s != [] && Sorted(s, o)
    ensures Sorted(s[..|s| - 1], o)
    ensures |s| >= 2 ==> !Precedes(s[|s| - 1], s[|s| - 2], o)
  {
  }

  /** Sorting twice with the same options is sorting once. */
  lemma SortIdempotent(s: seq<Node>, o: Order)
    ensures SortSeq(SortSeq(s, o), o) == SortSeq(s, o)
  {
    SortSorted(s, o);
    SortedUnchanged(SortSeq(s, o), o);
  }

  /** `Insert` places `x` at the first position `j` from which on every entry
      is one that `x` precedes. */
  lemma {:induction false} InsertAt(r: seq<Node>, x: Node, j: nat, o: Order)
    requires j <= |r|
    requires j == 0 || !Precedes(x, r[j - 1], o)
    requires forall k :: j <= k < |r| ==> Precedes(x, r[k], o)
    ensures Insert(r, x, o) == r[..j] + [x] + r[j..]
    decreases |r| - j
  {
    if j == |r| {
      assert r[..j] == r && r[j..] == [];
    } else {
      var last := r[|r| - 1];
      var r' := r[..|r| - 1];
      assert Precedes(x, last, o);
      assert j == 0 || r'[j - 1] == r[j - 1];
      InsertAt(r', x, j, o);
      SpliceAppend(r', x, last, j);
      assert r' + [last] == r;
    }
  }

  /** Inserting `x` at `j` and then appending `last` is inserting `x` at `j`
      into the list with `last` appended. */
  lemma SpliceAppend(r: seq<Node>, x: Node, last: Node, j: nat)
    requires j <= |r|
    ensures r[..j] + [x] + r[j..] + [last] == (r + [last])[..j] + [x] + (r + [last])[j..]
  {
    assert (r + [last])[..j] == r[..j];
    assert (r + [last])[j..] == r[j..] + [last];
  }

  /** The in-place sort of the `contents` list: a stable insertion sort. */
  method SortInPlace(a: array<Node>, o: Order)
    modifies a
    ensures a[..] == SortSeq(old(a[..]), o)
  {
    ghost var s := a[..];
    var i := 0;
    assert s[..0] == [] && s[0..] == s;
    while i < a.Length
      invariant 0 <= i <= a.Length
      invariant a[..] == SortSeq(s[..i], o) + s[i..]
    {
      ghost var before := a[..];
      InsertLast(a, i, o);
      SortPrefixStep(s, before, a[..], i, o);
      i := i + 1;
    }
    assert s[..a.Length] == s && s[a.Length..] == [];
  }

  /** One round of the outer loop: the sorted prefix grows by one entry and
      the unsorted rest stays as it was. */
  lemma SortPrefixStep(s: seq<Node>, before: seq<Node>, after: seq<Node>, i: nat, o: Order)
    requires i < |s| == |before| == |after|
    requires before == SortSeq(s[..i], o) + s[i..]
    requires after == Insert(before[..i], before[i], o) + before[i + 1..]
    ensures after == SortSeq(s[..i + 1], o) + s[i + 1..]
  {
    var sorted := SortSeq(s[..i], o);
    assert |sorted| == i;
    assert before[..i] == sorted;
    assert before[i] == s[i];
    assert before[i + 1..] == s[i + 1..];
    SortSeqStep(s, i, o);
  }

  lemma SortSeqStep(s: seq<Node>, i: nat, o: Order)
    requires i < |s|
    ensures SortSeq(s[..i + 1], o) == Insert(SortSeq(s[..i], o), s[i], o)
  {
    assert s[..i + 1][..i] == s[..i];
  }

  /** Moves `a[i]` left past every entry it must precede, shifting those one
      place right: `a[..i + 1]` becomes `Insert(a[..i], a[i])` and the rest of
      the array is untouched. */
  method InsertLast(a: array<Node>, i: nat, o: Order)
    requires i < a.Length
    modifies a
    ensures a[..] == Insert(old(a[..i]), old(a[i]), o) + old(a[i + 1..])
  {
    var x := a[i];
    var j := ShiftRight(a, i, o);
    a[j] := x;
    ShiftedIsInsert(old(a[..]), a[..], i, j, o);
  }

  /** The array after the shift and the store at the gap `j` holds, up to
      `i`, the insertion of the old `a[i]` into the old `a[..i]`, and the old
      entries after `i`. */
  lemma ShiftedIsInsert(before: seq<Node>, after: seq<Node>, i: nat, j: nat, o: Order)
    requires j <= i < |before| == |after|
    requires j == 0 || !Precedes(before[i], before[j - 1], o)
    requires forall k :: j <= k < i ==> Precedes(before[i], before[k], o)
    requires forall k :: 0 <= k < j ==> after[k] == before[k]
    requires after[j] == before[i]
    requires forall k :: j < k <= i ==> after[k] == before[k - 1]
    requires forall k :: i < k < |after| ==> after[k] == before[k]
    ensures after == Insert(before[..i], before[i], o) + before[i + 1..]
  {
    var r := before[..i];
    var x := before[i];
    InsertAt(r, x, j, o);
    ShiftedSplice(before, after, i, j);
    assert r[..j] == before[..j] && r[j..] == before[j..i];
  }

  /** Position by position, the shifted array is the old one with `a[i]`
      moved to `j`. */
  lemma ShiftedSplice(before: seq<Node>, after: seq<Node>, i: nat, j: nat)
    requires j <= i < |before| == |after|
    requires forall k :: 0 <= k < j ==> after[k] == before[k]
    requires after[j] == before[i]
    requires forall k :: j < k <= i ==> after[k] == before[k - 1]
    requires forall k :: i < k < |after| ==> after[k] == before[k]
    ensures after == before[..j] + [before[i]] + before[j..i] + before[i + 1..]
  {
    var t := before[..j] + [before[i]] + before[j..i] + before[i + 1..];
    assert |t| == |after|;
    forall k | 0 <= k < |after| ensures after[k] == t[k] {
      if k < j {
        assert t[k] == before[k];
      } else if k == j {
        assert t[k] == before[i];
      } else if k <= i {
        assert t[k] == before[k - 1];
      } else {
        assert t[k] == before[k];
      }
    }
  }

  /** The inner loop: shifts right, one place, the entries before `a[i]`
      that `a[i]` must precede, and returns the gap left at `j`. */
  method ShiftRight(a: array<Node>, i: nat, o: Order) returns (j: nat)
    requires i < a.Length
    modifies a
    ensures j <= i
    ensures j == 0 || !Precedes(old(a[i]), old(a[j - 1]), o)
    ensures forall k :: 0 <= k < j ==> a[k] == old(a[k])
    ensures forall k :: j < k <= i ==> a[k] == old(a[k - 1])
    ensures forall k :: i < k < a.Length ==> a[k] == old(a[k])
    ensures forall k :: j <= k < i ==> Precedes(old(a[i]), old(a[k]), o)
  {
    var x := a[i];
    j := i;
    while j > 0 && Precedes(x, a[j - 1], o)
      invariant 0 <= j <= i
      invariant forall k :: 0 <= k < j ==> a[k] == old(a[k])
      invariant forall k :: j < k <= i ==> a[k] == old(a[k - 1])
      invariant forall k :: i < k < a.Length ==> a[k] == old(a[k])
      invariant forall k :: j <= k < i ==> Precedes(x, old(a[k]), o)
    {
      a[j] := a[j - 1];
      j := j - 1;
    }
  }

  /** `reverse=True` is not the reversed ascending sort: two entries whose
      names differ only in case keep their order under both. */
  lemma ReverseKeepsTies()
    ensures var upper := File("A", 0, 0, ""); var lower := File("a", 0, 0, "");
      && SortSeq([upper, lower], Order(ByName, false)) == [upper, lower]
      && SortSeq([upper, lower], Order(ByName, true)) == [upper, lower]
  {
    var upper := File("A", 0, 0, "");
    var lower := File("a", 0, 0, "");
    assert Lower("A") == [LowerChar('A')] + Lower("");
    assert Lower("a") == [LowerChar('a')] + Lower("");
    assert NameKey(upper) == NameKey(lower);
    StrLessIrreflexive(NameKey(upper));
    var s := [upper, lower];
    assert s[..1][..0] == [] && s[..2] == s;
  }
}
