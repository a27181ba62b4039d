/** Which directory entries are analysed, in which order, and which year each
    one stands for (app.py lines 43 and 55-59). */
module FileNames {
  import opened Wrappers

  /* ---------------------------------------------------------------------- */
  /* Case folding and the `.png` filter                                       */
  /* ---------------------------------------------------------------------- */

  /** Lower-cases an ASCII capital; every other character is unchanged. */
  function LowerChar(c: char): char {
    if IsCapital(c) then (c as int + 32) as char else c
  }

  predicate IsCapital(c: char) {
    'A' <= c <= 'Z'
  }

  /** `str.lower()`, restricted to ASCII letters. */
  function Lower(s: string): (r: string)
    ensures |r| == |s|
  {
    seq(|s|, i requires 0 <= i < |s| => LowerChar(s[i]))
  }

  /** What lower-casing does: no capital is left, each capital becomes the
      small letter at the same place in the alphabet, and every other
      character is kept. */
  lemma LowerFolds(s: string)
    ensures forall i :: 0 <= i < |s| ==> !IsCapital(Lower(s)[i])
    ensures forall i :: 0 <= i < |s| && IsCapital(s[i]) ==>
              'a' <= Lower(s)[i] <= 'z' && Lower(s)[i] as int - 'a' as int == s[i] as int - 'A' as int
    ensures forall i :: 0 <= i < |s| && !IsCapital(s[i]) ==> Lower(s)[i] == s[i]
  {
  }

  /** Lower-casing twice is lower-casing once. */
  lemma LowerIdempotent(s: string)
    ensures Lower(Lower(s)) == Lower(s)
  {
  }

  /** `str.endswith`. */
  predicate EndsWith(s: string, suffix: string) {
    |suffix| <= |s| && s[|s| - |suffix|..] == suffix
  }

  /** The filter of app.py:43: `f.lower().endswith('.png')`. */
  predicate IsPng(f: string)
    ensures IsPng(f) <==> && |f| >= 4 && f[|f| - 4] == '.' && LowerChar(f[|f| - 3]) == 'p'
                          && LowerChar(f[|f| - 2]) == 'n' && LowerChar(f[|f| - 1]) == 'g'
  {
    var l := Lower(f);
    assert forall i :: 0 <= i < |f| ==> l[i] == LowerChar(f[i]);
    EndsWith(l, ".png")
  }

  /* ---------------------------------------------------------------------- */
  /* Python's string order and `sorted`                                       */
  /* ---------------------------------------------------------------------- */

  /** Python's `a <= b` on `str`: lexicographic by code point, a proper prefix
      coming first. */
  predicate LexLe(a: string, b: string)
    decreases |a|
  {
    |a| == 0 || (|b| > 0 && (a[0] < b[0] || (a[0] == b[0] && LexLe(a[1..], b[1..]))))
  }

  lemma {:induction false} LexLeTotal(a: string, b: string)
    ensures LexLe(a, b) || LexLe(b, a)
    decreases |a|
  {
    if |a| > 0 && |b| > 0 && a[0] == b[0] {
      LexLeTotal(a[1..], b[1..]);
    }
  }

  lemma {:induction false} LexLeTrans(a: string, b: string, c: string)
    requires LexLe(a, b) && LexLe(b, c)
    ensures LexLe(a, c)
    decreases |a|
  {
    if |a| > 0 && a[0] == b[0] && b[0] == c[0] {
      LexLeTrans(a[1..], b[1..], c[1..]);
    }
  }

  predicate NamesSorted(s: seq<string>) {
    forall i, j :: 0 <= i < j < |s| ==> LexLe(s[i], s[j])
  }

  /** Inserts `x` in front of the first element it does not exceed. */
  function InsertName(x: string, s: seq<string>): (r: seq<string>)
    requires NamesSorted(s)
    ensures NamesSorted(r)
    ensures multiset(r) == multiset(s) + multiset{x}
  {
    if |s| == 0 then [x]
    else if LexLe(x, s[0]) then
      LexLeAllAbove(x, s);
      [x] + s
    else
      LexLeTotal(x, s[0]);
      var t := InsertName(x, s[1..]);
      assert s == [s[0]] + s[1..];
      MultisetAbove(s[0], s, t, x);
      [s[0]] + t
  }

  /** Every element of a sorted sequence is at least a lower bound of its head. */
  lemma LexLeAllAbove(x: string, s: seq<string>)
    requires NamesSorted(s) && |s| > 0 && LexLe(x, s[0])
    ensures forall j :: 0 <= j < |s| ==> LexLe(x, s[j])
  {
    forall j | 0 <= j < |s|
      ensures LexLe(x, s[j])
    {
      if j > 0 {
        LexLeTrans(x, s[0], s[j]);
      }
    }
  }

  /** The head of a sorted `s` is below every element of `t` when `t` holds
      the tail of `s` and one element above the head. */
  lemma MultisetAbove(h: string, s: seq<string>, t: seq<string>, x: string)
    requires NamesSorted(s) && |s| > 0 && h == s[0] && LexLe(h, x)
    requires multiset(t) == multiset(s[1..]) + multiset{x}
    ensures forall j :: 0 <= j < |t| ==> LexLe(h, t[j])
  {
    forall j | 0 <= j < |t|
      ensures LexLe(h, t[j])
    {
      assert t[j] in multiset(t);
      if t[j] != x {
        assert t[j] in multiset(s[1..]);
        var k :| 0 <= k < |s[1..]| && s[1..][k] == t[j];
        assert s[k + 1] == t[j];
      }
    }
  }

  /** Python's `sorted` on a list of names: ascending, the same names. */
  function SortNames(s: seq<string>): (r: seq<string>)
    ensures NamesSorted(r)
    ensures multiset(r) == multiset(s)
  {
    if |s| == 0 then []
    else
      assert s == [s[0]] + s[1..];
      InsertName(s[0], SortNames(s[1..]))
  }

  function FilterPng(listing: seq<string>): (r: seq<string>)
    ensures forall f :: f in r <==> f in listing && IsPng(f)
    ensures multiset(r) <= multiset(listing)
  {
    if |listing| == 0 then []
    else
      assert listing == listing[..|listing| - 1] + [listing[|listing| - 1]];
      var last := listing[|listing| - 1];
      FilterPng(listing[..|listing| - 1]) + (if IsPng(last) then [last] else [])
  }

  /** The image files of app.py:43: the `.png` entries of the directory
      listing, in ascending order, each as often as it is listed. */
  function PngFiles(listing: seq<string>): (r: seq<string>)
    ensures forall f :: f in r <==> f in listing && IsPng(f)
    ensures forall f :: f in listing && IsPng(f) ==> multiset(r)[f] == multiset(listing)[f]
    ensures NamesSorted(r)
  {
    PngCountsKept(listing);
    SortNames(FilterPng(listing))
  }

  lemma {:induction false} PngCountsKept(listing: seq<string>)
    ensures forall f :: IsPng(f) ==> multiset(FilterPng(listing))[f] == multiset(listing)[f]
  {
    if |listing| > 0 {
      var p := listing[..|listing| - 1];
      assert listing == p + [listing[|listing| - 1]];
      PngCountsKept(p);
    }
  }

  /* ---------------------------------------------------------------------- */
  /* os.path.splitext                                                         */
  /* ---------------------------------------------------------------------- */

  /** `s.rfind(c, 0, end)`: the last index below `end` holding `c`, or -1. */
  function LastIndexBefore(s: string, c: char, end: nat): (r: int)
    requires end <= |s|
    ensures -1 <= r < end
  {
    if end == 0 then -1
    else if s[end - 1] == c then end - 1
    else LastIndexBefore(s, c, end - 1)
  }

  /** `str.rfind`: the last index holding `c`, or -1. */
  function LastIndexOf(s: string, c: char): (r: int)
    ensures -1 <= r < |s|
  {
    LastIndexBefore(s, c, |s|)
  }

  lemma {:induction false} LastIndexBeforeIsLast(s: string, c: char, end: nat)
    requires end <= |s|
    ensures LastIndexBefore(s, c, end) >= 0 ==> s[LastIndexBefore(s, c, end)] == c
    ensures forall j :: LastIndexBefore(s, c, end) < j < end ==> s[j] != c
    ensures LastIndexBefore(s, c, end) == -1 <==> forall j :: 0 <= j < end ==> s[j] != c
  {
    if end > 0 && s[end - 1] != c {
      LastIndexBeforeIsLast(s, c, end - 1);
    }
  }

  /** `LastIndexOf` finds the last occurrence of `c`, and -1 exactly when
      `c` does not occur. */
  lemma LastIndexOfIsLast(s: string, c: char)
    ensures LastIndexOf(s, c) >= 0 ==> s[LastIndexOf(s, c)] == c
    ensures forall j :: LastIndexOf(s, c) < j < |s| ==> s[j] != c
    ensures LastIndexOf(s, c) == -1 <==> c !in s
  {
    LastIndexBeforeIsLast(s, c, |s|);
  }

  predicate AllDots(s: string) {
    forall i :: 0 <= i < |s| ==> s[i] == '.'
  }

  /** Every character before `end` is a dot: `AllDots` of the prefix (see
      `DotsBeforeAll`), written by index so that reasoning about names does
      not bring in facts about nested slices. */
  predicate DotsBefore(s: string, end: nat)
    requires end <= |s|
  {
    end == 0 || (s[end - 1] == '.' && DotsBefore(s, end - 1))
  }

  lemma {:induction false} DotsBeforeAll(s: string, end: nat)
    requires end <= |s|
    ensures DotsBefore(s, end) <==> AllDots(s[..end])
  {
    if end > 0 {
      DotsBeforeAll(s, end - 1);
      assert s[..end - 1] == s[..end][..end - 1];
    }
  }

  /** Where `os.path.splitext(f)[0]` ends for a bare file name: at the last
      dot, unless only dots precede it (a leading-dot name has no
      extension), and otherwise at the end of the name. */
  function StemEnd(f: string): (r: nat)
    ensures r <= |f|
  {
    var i := LastIndexOf(f, '.');
    if i >= 0 && !DotsBefore(f, i) then i else |f|
  }

  /** `os.path.splitext(f)[0]` for a bare file name. */
  function Stem(f: string): (r: string)
    ensures |r| <= |f|
  {
    f[..StemEnd(f)]
  }

  /** The stem is a prefix of the name: either the whole name, when it has
      no extension, or the part before a last dot that is not preceded only
      by dots. */
  lemma StemIsSplitext(f: string)
    ensures Stem(f) <= f
    ensures Stem(f) == f || (f[|Stem(f)|] == '.' && !AllDots(Stem(f)) && forall j :: |Stem(f)| < j < |f| ==> f[j] != '.')
    ensures Stem(f) == f <==> LastIndexOf(f, '.') < 0 || AllDots(f[..LastIndexOf(f, '.')])
  {
    LastIndexOfIsLast(f, '.');
    var i := LastIndexOf(f, '.');
    if i >= 0 {
      DotsBeforeAll(f, i);
    }
  }

  /* ---------------------------------------------------------------------- */
  /* Digits and the year                                                      */
  /* ---------------------------------------------------------------------- */

  /** `str.isdigit`, restricted to ASCII digits. */
  predicate IsDigit(c: char) {
    '0' <= c <= '9'
  }

  predicate AllDigits(s: string) {
    forall i :: 0 <= i < |s| ==> IsDigit(s[i])
  }

  predicate NoDigits(s: string) {
    forall i :: 0 <= i < |s| ==> !IsDigit(s[i])
  }

  /** `"".join(filter(str.isdigit, s))`. */
  function Digits(s: string): (r: string)
    ensures |r| <= |s|
  {
    if |s| == 0 then []
    else
      var last := s[|s| - 1];
      Digits(s[..|s| - 1]) + (if IsDigit(last) then [last] else [])
  }

  /** The digits kept are digits, and none are kept exactly when the string
      has none. */
  lemma {:induction false} DigitsFiltered(s: string)
    ensures AllDigits(Digits(s))
    ensures |Digits(s)| == 0 <==> NoDigits(s)
  {
    if |s| > 0 {
      DigitsFiltered(s[..|s| - 1]);
    }
  }

  lemma {:induction false} DigitsAppend(a: string, b: string)
    ensures Digits(a + b) == Digits(a) + Digits(b)
    decreases |b|
  {
    if |b| == 0 {
      assert a + b == a;
    } else {
      var b' := b[..|b| - 1];
      assert (a + b)[..|a + b| - 1] == a + b';
      assert (a + b)[|a + b| - 1] == b[|b| - 1];
      DigitsAppend(a, b');
    }
  }

  lemma {:induction false} DigitsOfDigits(s: string)
    requires AllDigits(s)
    ensures Digits(s) == s
  {
    if |s| > 0 {
      DigitsOfDigits(s[..|s| - 1]);
    }
  }

  lemma DigitsOfNone(s: string)
    requires NoDigits(s)
    ensures Digits(s) == []
  {
  }

  function DigitValue(c: char): nat
    requires IsDigit(c)
  {
    c as int - '0' as int
  }

  function DigitChar(d: nat): (c: char)
    requires d < 10
    ensures IsDigit(c) && DigitValue(c) == d
  {
    ('0' as int + d) as char
  }

  /** `int(s)` for a non-empty string of ASCII digits (leading zeros allowed). */
  function DecimalValue(s: string): nat
    requires AllDigits(s)
  {
    if |s| == 0 then 0
    else 10 * DecimalValue(s[..|s| - 1]) + DigitValue(s[|s| - 1])
  }

  /** `str(n)`: the decimal numeral of `n`, without leading zeros. */
  function DecimalString(n: nat): (s: string)
    ensures AllDigits(s) && |s| > 0
    ensures |s| > 1 ==> s[0] != '0'
  {
    if n < 10 then [DigitChar(n)] else DecimalString(n / 10) + [DigitChar(n % 10)]
  }

  lemma {:induction false} DecimalRoundTrip(n: nat)
    ensures DecimalValue(DecimalString(n)) == n
  {
    if n >= 10 {
      DecimalRoundTrip(n / 10);
      var s := DecimalString(n);
      assert s[..|s| - 1] == DecimalString(n / 10);
    }
  }

  /** The year of app.py:56-59, or None when the stem holds no digit (the
      file is skipped). */
  function ParseYear(f: string): Option<nat> {
    var ds := Digits(Stem(f));
    DigitsFiltered(Stem(f));
    if |ds| == 0 then None else Some(DecimalValue(ds))
  }

  /** A file is skipped exactly when its stem holds no digit; otherwise its
      year is the number its digits spell, in order. */
  lemma ParseYearSkips(f: string)
    ensures ParseYear(f).None? <==> NoDigits(Stem(f))
    ensures ParseYear(f).Some? ==> AllDigits(Digits(Stem(f))) && ParseYear(f).value == DecimalValue(Digits(Stem(f)))
  {
    DigitsFiltered(Stem(f));
  }

  /** A `.png` file's stem is the name without its extension, or the whole
      name when only dots precede the extension's dot. */
  lemma PngStem(f: string)
    requires IsPng(f)
    ensures Stem(f) == f[..|f| - 4] || Stem(f) == f
  {
    var n := |f|;
    assert f[n - 3] != '.' && f[n - 2] != '.' && f[n - 1] != '.';
    LastIndexOfIsLast(f, '.');
    assert LastIndexOf(f, '.') == n - 4;
  }

  /** For a `.png` file the extension never contributes digits: the year is
      read from the name without its last four characters. */
  lemma PngYearFromName(f: string)
    requires IsPng(f)
    ensures Digits(Stem(f)) == Digits(f[..|f| - 4])
    ensures ParseYear(f).None? <==> NoDigits(f[..|f| - 4])
    ensures ParseYear(f).Some? ==> AllDigits(Digits(f[..|f| - 4])) && ParseYear(f).value == DecimalValue(Digits(f[..|f| - 4]))
  {
    var n := |f|;
    PngStem(f);
    var head, ext := f[..n - 4], f[n - 4..];
    assert f == head + ext;
    assert NoDigits(ext) by {
      assert !IsDigit(f[n - 4]) && !IsDigit(f[n - 3]) && !IsDigit(f[n - 2]) && !IsDigit(f[n - 1]);
    }
    DigitsAppend(head, ext);
    DigitsOfNone(ext);
    assert Digits(Stem(f)) == Digits(head);
    ParseYearSkips(f);
    DigitsFiltered(head);
  }

  /** Round trip: a year written into a `.png` name (any letter case of the
      extension) after a digit-free prefix is selected and parsed back. */
  lemma YearRoundTrip(prefix: string, year: nat, ext: string)
    requires NoDigits(prefix)
    requires Lower(ext) == ".png"
    ensures IsPng(prefix + DecimalString(year) + ext)
    ensures ParseYear(prefix + DecimalString(year) + ext) == Some(year)
  {
    var ds := DecimalString(year);
    var f := prefix + ds + ext;
    assert Lower(f)[|f| - 4..] == Lower(ext);
    assert IsPng(f);
    assert f[..|f| - 4] == prefix + ds;
    PngYearFromName(f);
    DigitsAppend(prefix, ds);
    DigitsOfNone(prefix);
    DigitsOfDigits(ds);
    assert Digits(f[..|f| - 4]) == ds;
    DecimalRoundTrip(year);
  }
}
