/** The Python string built-ins the lister relies on, over `seq<char>`:
    `strip` with a character set, `split` on one separator, ASCII `lower`,
    code-point ordering of strings, `str(int)` and `rjust`. */
module Text {

  // ---------------------------------------------------------------------
  // strip('./')

  /** The characters `path.strip('./')` removes: `.` and `/`. */
  predicate IsStripChar(c: char) {
    c == '.' || c == '/'
  }

  /** Drops the longest prefix made of `.` and `/`. */
  function TrimLeft(s: string): (r: string)
    ensures |r| <= |s| && r == s[|s| - |r|..]
    ensures forall i :: 0 <= i < |s| - |r| ==> IsStripChar(s[i])
    ensures r != [] ==> !IsStripChar(r[0])
  {
    if s != [] && IsStripChar(s[0]) then TrimLeft(s[1..]) else s
  }

  /** Drops the longest suffix made of `.` and `/`. */
  function TrimRight(s: string): (r: string)
    ensures |r| <= |s| && r == s[..|r|]
    ensures forall i :: |r| <= i < |s| ==> IsStripChar(s[i])
    ensures r != [] ==> !IsStripChar(r[|r| - 1])
  {
    if s != [] && IsStripChar(s[|s| - 1]) then TrimRight(s[..|s| - 1]) else s
  }

  /** `r` is what is left of `s` once its first `a` characters and a
      trailing run are taken away, and both removed runs are made of `.`
      and `/` only. */
  predicate KeepsMiddle(s: string, a: int, r: string) {
    0 <= a <= |s| - |r| && r == s[a..a + |r|]
    && (forall i :: 0 <= i < a ==> IsStripChar(s[i]))
    && (forall i :: a + |r| <= i < |s| ==> IsStripChar(s[i]))
  }

  /** `s.strip('./')`: removes every `.` and `/` from both ends. The result
      is the middle of `s` between a leading and a trailing run of those
      characters, and it neither begins nor ends with one. */
  function Strip(s: string): (r: string)
    ensures r == [] <==> forall i :: 0 <= i < |s| ==> IsStripChar(s[i])
    ensures r != [] ==> !IsStripChar(r[0]) && !IsStripChar(r[|r| - 1])
  {
    StripEnds(s);
    TrimRight(TrimLeft(s))
  }

  /** What the strip keeps is the middle of `s` between a leading and a
      trailing run of `.` and `/`. */
  lemma StripKeepsMiddle(s: string)
    ensures exists a :: KeepsMiddle(s, a, Strip(s))
  {
    StripMiddle(s);
    assert KeepsMiddle(s, |s| - |TrimLeft(s)|, Strip(s));
  }

  /** The strip keeps the middle of `s` that starts after the leading run
      `TrimLeft` removes. */
  lemma StripMiddle(s: string)
    ensures KeepsMiddle(s, |s| - |TrimLeft(s)|, TrimRight(TrimLeft(s)))
  {
    var l := TrimLeft(s);
    var r := TrimRight(l);
    assert l == s[|s| - |l|..];
    assert r == l[..|r|];
    MiddleOf(s, l, r);
  }

  /** Trimming both ends leaves nothing exactly when every character is
      stripped, and otherwise stops at a kept character on each side. */
  lemma StripEnds(s: string)
    ensures var r := TrimRight(TrimLeft(s));
      && (r == [] <==> forall i :: 0 <= i < |s| ==> IsStripChar(s[i]))
      && (r != [] ==> !IsStripChar(r[0]) && !IsStripChar(r[|r| - 1]))
  {
    var l := TrimLeft(s);
    if l != [] {
      assert !IsStripChar(s[|s| - |l|]);
      assert !IsStripChar(l[0]);
    }
  }

  /** Taking a suffix `l` of `s` after a stripped run, then a prefix `r` of
      `l` before a stripped run, keeps a middle of `s`. */
  lemma MiddleOf(s: string, l: string, r: string)
    requires |l| <= |s| && l == s[|s| - |l|..]
    requires |r| <= |l| && r == l[..|r|]
    requires forall i :: 0 <= i < |s| - |l| ==> IsStripChar(s[i])
    requires forall i :: |r| <= i < |l| ==> IsStripChar(l[i])
    ensures KeepsMiddle(s, |s| - |l|, r)
  {
    var a := |s| - |l|;
    assert r == s[a..a + |r|];
    forall i | a + |r| <= i < |s| ensures IsStripChar(s[i]) {
      assert s[i] == l[i - a];
    }
  }

  /** A leading run of `.` and `/` does not change the strip. */
  lemma {:induction false} StripPrefixIgnored(prefix: string, s: string)
    requires forall i :: 0 <= i < |prefix| ==> IsStripChar(prefix[i])
    ensures TrimLeft(prefix + s) == TrimLeft(s)
    ensures Strip(prefix + s) == Strip(s)
  {
    if prefix == [] {
      assert prefix + s == s;
    } else {
      assert (prefix + s)[0] == prefix[0];
      assert (prefix + s)[1..] == prefix[1..] + s;
      StripPrefixIgnored(prefix[1..], s);
      assert TrimLeft(prefix + s) == TrimLeft(s);
    }
  }

  // ---------------------------------------------------------------------
  // split('/')

  /** Index of the first `sep` in `s`, or `|s|` when there is none. */
  function IndexOf(s: string, sep: char): (k: nat)
    ensures k <= |s|
    ensures sep !in s[..k]
    ensures k < |s| ==> s[k] == sep
  {
    if s == [] then 0
    else if s[0] == sep then 0
    else
      var k := 1 + IndexOf(s[1..], sep);
      assert s[..k] == [s[0]] + s[1..][..k - 1];
      k
  }

  /** Inverse of `split`: the parts glued together with `sep`. */
  function Join(parts: seq<string>, sep: char): string {
    if parts == [] then ""
    else if |parts| == 1 then parts[0]
    else parts[0] + [sep] + Join(parts[1..], sep)
  }

  /** `s.split(sep)`: always at least one part, no part contains `sep`, and
      joining the parts gives `s` back. */
  function Split(s: string, sep: char): (parts: seq<string>)
    ensures |parts| >= 1
    ensures forall i :: 0 <= i < |parts| ==> sep !in parts[i]
    ensures Join(parts, sep) == s
    decreases |s|
  {
    var k := IndexOf(s, sep);
    if k == |s| then
      assert s[..k] == s;
      [s]
    else
      var rest := Split(s[k + 1..], sep);
      assert s == s[..k] + [sep] + s[k + 1..];
      [s[..k]] + rest
  }

  /** Splitting a join gives the parts back: with the ensures of `Split`,
      the two are inverse to each other. */
  lemma {:induction false} SplitJoin(parts: seq<string>, sep: char)
    requires |parts| >= 1
    requires forall i :: 0 <= i < |parts| ==> sep !in parts[i]
    ensures Split(Join(parts, sep), sep) == parts
  {
    var s := Join(parts, sep);
    if |parts| == 1 {
      assert IndexOf(s, sep) == |s|;
    } else {
      var tail := Join(parts[1..], sep);
      assert s == parts[0] + [sep] + tail;
      var k := IndexOf(s, sep);
      assert s[|parts[0]|] == sep;
      assert k == |parts[0]| by {
        assert s[..|parts[0]|] == parts[0];
      }
      assert s[..k] == parts[0];
      assert s[k + 1..] == tail;
      SplitJoin(parts[1..], sep);
    }
  }

  // ---------------------------------------------------------------------
  // lower() and string ordering

  /** `c.lower()` for ASCII letters; every other character is kept. */
  function LowerChar(c: char): (r: char)
    ensures 'A' <= c <= 'Z' ==> 'a' <= r <= 'z' && r as int == c as int + 32
    ensures !('A' <= c <= 'Z') ==> r == c
  {
    if 'A' <= c <= 'Z' then (c as int + 32) as char else c
  }

  /** `s.lower()`: every character folded with `LowerChar`. */
  function Lower(s: string): (r: string)
    ensures |r| == |s|
    ensures forall i :: 0 <= i < |s| ==> r[i] == LowerChar(s[i])
  {
    if s == [] then [] else [LowerChar(s[0])] + Lower(s[1..])
  }

  /** `lower()` leaves a string without ASCII capitals unchanged. */
  lemma {:induction false} LowerNoCapitals(s: string)
    requires forall i :: 0 <= i < |s| ==> !('A' <= s[i] <= 'Z')
    ensures Lower(s) == s
  {
    if s != [] {
      LowerNoCapitals(s[1..]);
    }
  }

  /** Python's `<` on strings: lexicographic by code point, a proper prefix first. */
  predicate StrLess(a: string, b: string) {
    if a == [] then b != []
    else if b == [] then false
    else if a[0] < b[0] then true
    else if a[0] == b[0] then StrLess(a[1..], b[1..])
    else false
  }

  lemma {:induction false} StrLessIrreflexive(a: string)
    ensures !StrLess(a, a)
  {
    if a != [] { StrLessIrreflexive(a[1..]); }
  }

  lemma {:induction false} StrLessAsymmetric(a: string, b: string)
    requires StrLess(a, b)
    ensures !StrLess(b, a)
  {
    if a != [] && b != [] && a[0] == b[0] { StrLessAsymmetric(a[1..], b[1..]); }
  }

  lemma {:induction false} StrLessTransitive(a: string, b: string, c: string)
    requires StrLess(a, b) && StrLess(b, c)
    ensures StrLess(a, c)
  {
    if a != [] && b != [] && c != [] && a[0] == b[0] && b[0] == c[0] {
      StrLessTransitive(a[1..], b[1..], c[1..]);
    }
  }

  /** Any two different strings are ordered one way or the other. */
  lemma {:induction false} StrLessTotal(a: string, b: string)
    requires a != b
    ensures StrLess(a, b) || StrLess(b, a)
  {
    if a != [] && b != [] && a[0] == b[0] {
      assert a == [a[0]] + a[1..] && b == [b[0]] + b[1..];
      StrLessTotal(a[1..], b[1..]);
    }
  }

  // ---------------------------------------------------------------------
  // str(int) and rjust

  function DigitChar(d: nat): (c: char)
    requires d < 10
    ensures '0' <= c <= '9'
  {
    ('0' as int + d) as char
  }

  predicate IsDigit(c: char) {
    '0' <= c <= '9'
  }

  /** Value of a string of decimal digits. */
  function DigitsValue(s: string): nat
    requires forall i :: 0 <= i < |s| ==> IsDigit(s[i])
  {
    if s == [] then 0
    else 10 * DigitsValue(s[..|s| - 1]) + DigitOf(s[|s| - 1])
  }

  function DigitOf(c: char): (d: nat)
    requires IsDigit(c)
    ensures d < 10 && DigitChar(d) == c
  {
    c as int - '0' as int
  }

  /** `str(n)` for a natural number: digits only, no leading zero. */
  function NatToString(n: nat): (s: string)
    ensures |s| >= 1
    ensures forall i :: 0 <= i < |s| ==> IsDigit(s[i])
    ensures s[0] == '0' ==> n == 0 && s == "0"
  {
    if n < 10 then [DigitChar(n)] else NatToString(n / 10) + [DigitChar(n % 10)]
  }

  /** Reading the digits of `str(n)` back gives `n`. */
  lemma {:induction false} NatToStringValue(n: nat)
    ensures DigitsValue(NatToString(n)) == n
  {
    var s := NatToString(n);
    if n >= 10 {
      assert s[..|s| - 1] == NatToString(n / 10);
      NatToStringValue(n / 10);
    }
  }

  /** `str(n)` for any integer (`-` then the digits of `-n` when negative). */
  function IntToString(n: int): (s: string)
    ensures |s| >= 1
  {
    if n < 0 then "-" + NatToString(-n) else NatToString(n)
  }

  /** `s.rjust(width)`: spaces on the left up to `width`; never truncates. */
  function RightJustify(s: string, width: nat): (r: string)
    ensures |r| == if |s| < width then width else |s|
    ensures r[|r| - |s|..] == s
    ensures forall i :: 0 <= i < |r| - |s| ==> r[i] == ' '
  {
    if |s| < width then seq(width - |s|, _ => ' ') + s else s
  }
}
