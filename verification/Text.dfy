/** Strings as the operator uses them: Go's byte order, `sort.Strings`, the
    `strings` and `bufio` helpers, and the decimal suffix of a pod name.
    A string is a sequence of Unicode scalar values; UTF-8 byte order and
    scalar-value order agree. */
module Text {

  /** Go's `<=` on strings. */
  predicate LexLe(a: string, b: string) {
    a == "" || (b != "" && (a[0] < b[0] || (a[0] == b[0] && LexLe(a[1..], b[1..]))))
  }

  predicate LexLess(a: string, b: string) {
    LexLe(a, b) && a != b
  }

  lemma {:induction false} LexLeReflexive(a: string)
    ensures LexLe(a, a)
  {
    if a != "" {
      LexLeReflexive(a[1..]);
    }
  }

  lemma {:induction false} LexLeTotal(a: string, b: string)
    ensures LexLe(a, b) || LexLe(b, a)
  {
    if a != "" && b != "" && a[0] == b[0] {
      LexLeTotal(a[1..], b[1..]);
    }
  }

  lemma {:induction false} LexLeAntisymmetric(a: string, b: string)
    requires LexLe(a, b) && LexLe(b, a)
    ensures a == b
  {
    if a != "" {
      LexLeAntisymmetric(a[1..], b[1..]);
      assert a == [a[0]] + a[1..] && b == [b[0]] + b[1..];
    }
  }

  lemma {:induction false} LexLeTransitive(a: string, b: string, c: string)
    requires LexLe(a, b) && LexLe(b, c)
    ensures LexLe(a, c)
  {
    if a != "" && a[0] == b[0] && b[0] == c[0] {
      LexLeTransitive(a[1..], b[1..], c[1..]);
    }
  }

  lemma {:induction false} LexLessConcat(a: string, b: string, x: string, y: string)
    requires |a| == |b|
    ensures LexLess(a + x, b + y) <==> LexLess(a, b) || (a == b && LexLess(x, y))
  {
    if a == "" {
      assert a + x == x && b + y == y;
    } else {
      assert (a + x)[1..] == a[1..] + x && (b + y)[1..] == b[1..] + y;
      LexLessConcat(a[1..], b[1..], x, y);
      HeadAndTail(a, b);
      HeadAndTail(a + x, b + y);
    }
  }

  lemma HeadAndTail(a: string, b: string)
    requires a != "" && b != ""
    ensures a == b <==> a[0] == b[0] && a[1..] == b[1..]
  {
    assert a == [a[0]] + a[1..] && b == [b[0]] + b[1..];
  }

  /******* sort.Strings *******/

  function InsertSorted(x: string, xs: seq<string>): seq<string> {
    if xs == [] then [x]
    else if LexLe(x, xs[0]) then [x] + xs
    else [xs[0]] + InsertSorted(x, xs[1..])
  }

  function SortStrings(xs: seq<string>): seq<string> {
    if xs == [] then [] else InsertSorted(xs[0], SortStrings(xs[1..]))
  }

  /** Ascending: the head is a least element, and so on down the tail. */
  ghost predicate Sorted(xs: seq<string>) {
    xs == [] || ((forall y :: y in xs[1..] ==> LexLe(xs[0], y)) && Sorted(xs[1..]))
  }

  ghost predicate Distinct<T>(xs: seq<T>) {
    forall i, j :: 0 <= i < j < |xs| ==> xs[i] != xs[j]
  }

  lemma {:induction false} InsertSortedMultiset(x: string, xs: seq<string>)
    ensures multiset(InsertSorted(x, xs)) == multiset{x} + multiset(xs)
  {
    if xs != [] && !LexLe(x, xs[0]) {
      InsertSortedMultiset(x, xs[1..]);
      assert xs == [xs[0]] + xs[1..];
    }
  }

  lemma {:induction false} InsertSortedSorts(x: string, xs: seq<string>)
    requires Sorted(xs)
    ensures Sorted(InsertSorted(x, xs))
  {
    if xs == [] {
    } else if LexLe(x, xs[0]) {
      forall y | y in xs ensures LexLe(x, y) {
        if y in xs[1..] {
          LexLeTransitive(x, xs[0], y);
        }
      }
      assert ([x] + xs)[1..] == xs;
    } else {
      LexLeTotal(x, xs[0]);
      var t := InsertSorted(x, xs[1..]);
      InsertSortedSorts(x, xs[1..]);
      InsertSortedMultiset(x, xs[1..]);
      forall y | y in t ensures LexLe(xs[0], y) {
        assert y in multiset(t);
        assert y == x || y in xs[1..];
      }
      assert ([xs[0]] + t)[1..] == t;
    }
  }

  lemma {:induction false} SortStringsSorts(xs: seq<string>)
    ensures Sorted(SortStrings(xs))
    ensures multiset(SortStrings(xs)) == multiset(xs)
    ensures |SortStrings(xs)| == |xs|
  {
    if xs != [] {
      SortStringsSorts(xs[1..]);
      InsertSortedSorts(xs[0], SortStrings(xs[1..]));
      InsertSortedMultiset(xs[0], SortStrings(xs[1..]));
      assert xs == [xs[0]] + xs[1..];
    }
    assert |multiset(SortStrings(xs))| == |multiset(xs)|;
  }

  lemma SortStringsMembers(xs: seq<string>)
    ensures forall x :: x in SortStrings(xs) <==> x in xs
  {
    SortStringsSorts(xs);
    forall x ensures x in SortStrings(xs) <==> x in xs {
      assert x in SortStrings(xs) <==> x in multiset(SortStrings(xs));
      assert x in xs <==> x in multiset(xs);
    }
  }

  lemma HeadIsLeast(xs: seq<string>, y: string)
    requires Sorted(xs) && y in xs
    ensures LexLe(xs[0], y)
  {
    hide LexLe;
    LexLeReflexive(xs[0]);
    assert xs == [xs[0]] + xs[1..];
  }

  lemma {:induction false} SortedAt(xs: seq<string>, i: nat, j: nat)
    requires Sorted(xs) && i <= j < |xs|
    ensures LexLe(xs[i], xs[j])
  {
    hide LexLe;
    if i == 0 {
      HeadIsLeast(xs, xs[j]);
    } else {
      SortedAt(xs[1..], i - 1, j - 1);
    }
  }

  lemma TailMultiset(xs: seq<string>)
    requires xs != []
    ensures multiset(xs[1..]) == multiset(xs) - multiset{xs[0]}
  {
    assert xs == [xs[0]] + xs[1..];
  }

  /** Sorting forgets the order of its input and nothing else. */
  lemma {:induction false} SortedIsUnique(xs: seq<string>, ys: seq<string>)
    requires Sorted(xs) && Sorted(ys) && multiset(xs) == multiset(ys)
    ensures xs == ys
  {
    hide LexLe;
    assert |multiset(xs)| == |multiset(ys)|;
    if xs != [] {
      assert xs[0] in multiset(ys) && ys[0] in multiset(xs);
      HeadIsLeast(xs, ys[0]);
      HeadIsLeast(ys, xs[0]);
      LexLeAntisymmetric(xs[0], ys[0]);
      TailMultiset(xs);
      TailMultiset(ys);
      SortedIsUnique(xs[1..], ys[1..]);
      assert xs == [xs[0]] + xs[1..] && ys == [ys[0]] + ys[1..];
    }
  }

  /******* strings.TrimSpace and friends *******/

  /** unicode.IsSpace */
  predicate IsSpace(c: char) {
    c in "\t\n\r " || c == '\U{0B}' || c == '\U{0C}' || c == '\U{85}' || c == '\U{A0}' || c == '\U{1680}'
    || '\U{2000}' <= c <= '\U{200A}' || c == '\U{2028}' || c == '\U{2029}' || c == '\U{202F}'
    || c == '\U{205F}' || c == '\U{3000}'
  }

  predicate Blank(s: string) {
    forall i :: 0 <= i < |s| ==> IsSpace(s[i])
  }

  function TrimLeft(s: string): string {
    if s != "" && IsSpace(s[0]) then TrimLeft(s[1..]) else s
  }

  function TrimRight(s: string): string {
    if s != "" && IsSpace(s[|s| - 1]) then TrimRight(s[..|s| - 1]) else s
  }

  /** strings.TrimSpace */
  function Trim(s: string): string {
    TrimRight(TrimLeft(s))
  }

  /** strings.TrimLeft(s, " ") */
  function TrimLeftBlanks(s: string): string {
    if s != "" && s[0] == ' ' then TrimLeftBlanks(s[1..]) else s
  }

  /** The first position of `c`, or the length when `c` does not occur. */
  function Find(s: string, c: char): (k: nat)
    ensures k <= |s|
    ensures k < |s| ==> s[k] == c
    ensures forall i :: 0 <= i < k ==> s[i] != c
  {
    if s == "" || s[0] == c then 0 else 1 + Find(s[1..], c)
  }

  /** strings.Split on one character: never empty. */
  function Split(s: string, c: char): (parts: seq<string>)
    ensures |parts| >= 1
    decreases |s|
  {
    var k := Find(s, c);
    if k == |s| then [s] else [s[..k]] + Split(s[k + 1..], c)
  }

  function Join(parts: seq<string>, sep: string): string {
    if parts == [] then ""
    else if |parts| == 1 then parts[0]
    else parts[0] + sep + Join(parts[1..], sep)
  }

  /******* bufio.ScanLines *******/

  function DropCR(s: string): string {
    if s != "" && s[|s| - 1] == '\r' then s[..|s| - 1] else s
  }

  function ScanLines(s: string): seq<string>
    decreases |s|
  {
    var k := Find(s, '\n');
    if k < |s| then [DropCR(s[..k])] + ScanLines(s[k + 1..])
    else if s == "" then []
    else [DropCR(s)]
  }

  /******* Decimal numbers *******/

  function Digit(d: nat): char
    requires d < 10
  {
    (('0' as int) + d) as char
  }

  /** strconv.Itoa on a natural number. */
  function Itoa(n: nat): (s: string)
    ensures s != ""
    ensures forall i :: 0 <= i < |s| ==> '0' <= s[i] <= '9'
  {
    if n < 10 then [Digit(n)] else Itoa(n / 10) + [Digit(n % 10)]
  }

  lemma {:induction false} NoLeadingZero(n: nat)
    requires n >= 1
    ensures Itoa(n)[0] >= '1'
    ensures |Itoa(n)| == 1 <==> n < 10
  {
    if n >= 10 {
      NoLeadingZero(n / 10);
    }
  }

  lemma {:induction false} ItoaInjective(m: nat, n: nat)
    requires Itoa(m) == Itoa(n)
    ensures m == n
  {
    var s, t := Itoa(m), Itoa(n);
    assert s[|s| - 1] == t[|t| - 1];
    assert m % 10 == n % 10;
    if m >= 10 && n >= 10 {
      assert Itoa(m / 10) == s[..|s| - 1] == t[..|t| - 1] == Itoa(n / 10);
      ItoaInjective(m / 10, n / 10);
    }
  }
}
