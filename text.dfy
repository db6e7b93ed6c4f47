/** The string primitives the page relies on: Python's `str.isspace()` and
    `str.strip()`, ASCII `str.lower()`, and Python's ordering of `str`
    values (code point by code point, a proper prefix first), with the
    sorted insertion that `sorted(set(...))` amounts to. */
module Text {

  /** The characters Python's `str.isspace()` accepts, i.e. those that
      `str.strip()` with no argument removes. */
  predicate IsSpace(c: char) {
    || ('\t' <= c <= '\r')
    || ('\U{1C}' <= c <= ' ')
    || c == '\U{85}' || c == '\U{A0}' || c == '\U{1680}'
    || ('\U{2000}' <= c <= '\U{200A}')
    || c == '\U{2028}' || c == '\U{2029}' || c == '\U{202F}' || c == '\U{205F}' || c == '\U{3000}'
  }

  /** No whitespace at either end. */
  predicate IsStripped(s: string) {
    s == [] || (!IsSpace(s[0]) && !IsSpace(s[|s| - 1]))
  }

  /** The length of the whitespace run `s` starts with. */
  function LeadingSpace(s: string): (n: nat)
    ensures n <= |s|
    ensures forall k | 0 <= k < n :: IsSpace(s[k])
    ensures n < |s| ==> !IsSpace(s[n])
  {
    if s == [] || !IsSpace(s[0]) then 0 else 1 + LeadingSpace(s[1..])
  }

  /** The length of the whitespace run `s` ends with. */
  function TrailingSpace(s: string): (n: nat)
    ensures n <= |s|
    ensures forall k | |s| - n <= k < |s| :: IsSpace(s[k])
    ensures n < |s| ==> !IsSpace(s[|s| - n - 1])
  {
    if s == [] || !IsSpace(s[|s| - 1]) then 0 else 1 + TrailingSpace(s[..|s| - 1])
  }

  /** Where the text `Strip(s)` keeps ends: everything from there on is
      whitespace. */
  function StripEnd(s: string): (b: nat)
    ensures LeadingSpace(s) <= b <= |s|
    ensures forall k | b <= k < |s| :: IsSpace(s[k])
    ensures LeadingSpace(s) < b ==> !IsSpace(s[b - 1])
  {
    if LeadingSpace(s) == |s| then |s| else |s| - TrailingSpace(s)
  }

  /** Python's `str.strip()`: the infix of `s` between its leading and its
      trailing whitespace. It is empty exactly when `s` is all whitespace. */
  function Strip(s: string): (r: string)
    ensures IsStripped(r)
    ensures r == [] <==> forall k | 0 <= k < |s| :: IsSpace(s[k])
  {
    s[LeadingSpace(s)..StripEnd(s)]
  }

  /** What `str.strip()` keeps: the text between a run of whitespace at its
      start and one at its end, and nothing else is removed. */
  lemma StripKeepsInfix(s: string) returns (a: nat, b: nat)
    ensures a <= b <= |s| && Strip(s) == s[a..b]
    ensures forall k | 0 <= k < a :: IsSpace(s[k])
    ensures forall k | b <= k < |s| :: IsSpace(s[k])
  {
    a, b := LeadingSpace(s), StripEnd(s);
  }

  /** Stripping a string that has no whitespace at its ends changes nothing. */
  lemma StripStripped(s: string)
    requires IsStripped(s)
    ensures Strip(s) == s
  {
    if s != [] {
      assert LeadingSpace(s) == 0;
      assert TrailingSpace(s) == 0;
    }
  }

  predicate IsUpper(c: char) {
    'A' <= c <= 'Z'
  }

  /** Python's `str.lower()` restricted to ASCII letters. */
  function LowerChar(c: char): (r: char)
    ensures !IsUpper(r)
    ensures !IsUpper(c) ==> r == c
    ensures IsUpper(c) ==> r as int == c as int - 'A' as int + 'a' as int
    ensures IsSpace(r) == IsSpace(c)
  {
    if IsUpper(c) then (c as int - 'A' as int + 'a' as int) as char else c
  }

  /** Contains no upper-case letter. */
  predicate IsLower(s: string) {
    forall k | 0 <= k < |s| :: !IsUpper(s[k])
  }

  /** `str.lower()`: every character lowered in place; only upper-case
      letters change. */
  function Lower(s: string): (r: string)
    ensures |r| == |s| && IsLower(r)
    ensures forall k | 0 <= k < |s| :: !IsUpper(s[k]) ==> r[k] == s[k]
    ensures forall k | 0 <= k < |s| :: IsUpper(s[k]) ==> 'a' <= r[k] <= 'z'
    ensures forall k | 0 <= k < |s| :: IsUpper(s[k]) ==> r[k] as int == s[k] as int - 'A' as int + 'a' as int
    ensures forall k | 0 <= k < |s| :: IsSpace(r[k]) == IsSpace(s[k])
  {
    seq(|s|, k requires 0 <= k < |s| => LowerChar(s[k]))
  }

  /** Lowering an already lower-case string is the identity. */
  lemma LowerOfLower(s: string)
    requires IsLower(s)
    ensures Lower(s) == s
  {
  }

  /** Python's `<` on `str`: no string is below itself, and a proper prefix
      comes first. */
  predicate Less(a: string, b: string)
    ensures Less(a, b) ==> a != b
    ensures a < b ==> Less(a, b)
  {
    if a == [] then b != []
    else if b == [] then false
    else if a[0] != b[0] then a[0] < b[0]
    else Less(a[1..], b[1..])
  }

  lemma {:induction false} LessIrreflexive(a: string)
    ensures !Less(a, a)
  {
    if a != [] {
      LessIrreflexive(a[1..]);
    }
  }

  lemma {:induction false} LessTransitive(a: string, b: string, c: string)
    requires Less(a, b) && Less(b, c)
    ensures Less(a, c)
  {
    if a != [] && b != [] && c != [] && a[0] == b[0] && b[0] == c[0] {
      LessTransitive(a[1..], b[1..], c[1..]);
    }
  }

  lemma {:induction false} LessTotal(a: string, b: string)
    requires a != b
    ensures Less(a, b) || Less(b, a)
  {
    if a != [] && b != [] && a[0] == b[0] {
      assert a == [a[0]] + a[1..] && b == [b[0]] + b[1..];
      LessTotal(a[1..], b[1..]);
    }
  }

  lemma {:induction false} LessAsymmetric(a: string, b: string)
    requires Less(a, b)
    ensures !Less(b, a)
  {
    if a != [] && b != [] && a[0] == b[0] {
      LessAsymmetric(a[1..], b[1..]);
    }
  }

  /** Sorted ascending with no duplicates. */
  predicate StrictlyAscending(xs: seq<string>) {
    forall i, j | 0 <= i < j < |xs| :: Less(xs[i], xs[j])
  }

  /** Adds `x` to a strictly ascending list, keeping it strictly ascending:
      the set-add followed by `sorted` of the source. */
  function Insert(xs: seq<string>, x: string): (r: seq<string>)
    requires StrictlyAscending(xs)
    ensures StrictlyAscending(r)
    ensures forall y :: y in r <==> y in xs || y == x
  {
    if xs == [] then [x]
    else if x == xs[0] then xs
    else if Less(x, xs[0]) then
      assert forall j | 0 < j < |xs| :: Less(x, xs[j]) by {
        forall j | 0 < j < |xs| ensures Less(x, xs[j]) { LessTransitive(x, xs[0], xs[j]); }
      }
      [x] + xs
    else
      LessTotal(x, xs[0]);
      var rest := Insert(xs[1..], x);
      assert forall y | y in rest :: Less(xs[0], y);
      [xs[0]] + rest
  }

  /** `sorted(set(xs))`: the distinct elements of `xs` in ascending order. */
  function SortedDistinct(xs: seq<string>): (r: seq<string>)
    ensures StrictlyAscending(r)
    ensures forall y :: y in r <==> y in xs
  {
    if xs == [] then [] else Insert(SortedDistinct(xs[..|xs| - 1]), xs[|xs| - 1])
  }

  /** The head of a strictly ascending list is below every other element. */
  lemma HeadIsLeast(xs: seq<string>, y: string)
    requires StrictlyAscending(xs) && y in xs && y != xs[0]
    ensures Less(xs[0], y)
  {
  }

  /** A strictly ascending list is determined by its elements, so
      `sorted(set(...))` does not depend on the order elements were added. */
  lemma {:induction false} AscendingUnique(xs: seq<string>, ys: seq<string>)
    requires StrictlyAscending(xs) && StrictlyAscending(ys)
    requires forall y :: y in xs <==> y in ys
    ensures xs == ys
  {
    assert xs != [] ==> xs[0] in ys;
    assert ys != [] ==> ys[0] in xs;
    if xs != [] && ys != [] {
      assert xs[0] in ys && ys[0] in xs;
      if xs[0] != ys[0] {
        HeadIsLeast(ys, xs[0]);
        HeadIsLeast(xs, ys[0]);
        LessAsymmetric(xs[0], ys[0]);
        assert false;
      }
      assert xs == [xs[0]] + xs[1..] && ys == [ys[0]] + ys[1..];
      forall y ensures y in xs[1..] <==> y in ys[1..] {
        if y in xs[1..] {
          var i :| 1 <= i < |xs| && xs[i] == y;
          assert Less(xs[0], y);
          LessIrreflexive(y);
          assert y in ys && y != ys[0];
          var j :| 0 <= j < |ys| && ys[j] == y;
          assert ys[1..][j - 1] == y;
        }
        if y in ys[1..] {
          var i :| 1 <= i < |ys| && ys[i] == y;
          assert Less(ys[0], y);
          LessIrreflexive(y);
          assert y in xs && y != xs[0];
          var j :| 0 <= j < |xs| && xs[j] == y;
          assert xs[1..][j - 1] == y;
        }
      }
      AscendingUnique(xs[1..], ys[1..]);
    }
  }
}
