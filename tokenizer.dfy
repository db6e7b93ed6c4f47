/** `split_trait_values` (app.py lines 43-46): a cell is split with
    `re.split` on the pattern `,| - |–| to | and |\+|-`, each piece is
    stripped and lower-cased, and empty pieces are dropped. The split runs
    on the text as given; lower-casing comes after it, so " To " and
    " And " are not separators here. */
module Tokenizer {
  import opened Options
  import opened Text
  import opened Seqs

  /** The alternatives of the pattern, in the order the pattern tries them. */
  const Delimiters: seq<string> := [",", " - ", "\U{2013}", " to ", " and ", "+", "-"]

  /** A character that is a whole separator on its own. */
  predicate IsDelimiterChar(c: char) {
    c == ',' || c == '\U{2013}' || c == '+' || c == '-'
  }

  /** The first of `ds` that `s` starts with, if any: how an alternation
      chooses among its alternatives at one position. */
  function FirstPrefix(ds: seq<string>, s: string): (r: Option<string>)
    ensures r.Some? ==> r.value in ds && r.value <= s
  {
    if ds == [] then None
    else if ds[0] <= s then Some(ds[0])
    else FirstPrefix(ds[1..], s)
  }

  /** The alternation takes the earliest alternative that fits, and finds
      nothing only when none fits. */
  lemma {:induction false} FirstPrefixIsFirst(ds: seq<string>, s: string) returns (i: nat)
    requires FirstPrefix(ds, s).Some?
    ensures i < |ds| && ds[i] == FirstPrefix(ds, s).value
    ensures forall j | 0 <= j < i :: !(ds[j] <= s)
  {
    if ds[0] <= s {
      i := 0;
    } else {
      var i' := FirstPrefixIsFirst(ds[1..], s);
      i := i' + 1;
      forall j | 0 <= j < i ensures !(ds[j] <= s) {
        if j > 0 { assert ds[j] == ds[1..][j - 1]; }
      }
    }
  }

  /** An alternation none of whose alternatives fits finds nothing, and
      one that finds nothing had no fitting alternative. */
  lemma {:induction false} FirstPrefixNone(ds: seq<string>, s: string)
    ensures FirstPrefix(ds, s).None? <==> forall d | d in ds :: !(d <= s)
  {
    if ds != [] {
      assert forall d | d in ds :: d == ds[0] || d in ds[1..];
      FirstPrefixNone(ds[1..], s);
    }
  }

  /** The separator the pattern matches at the start of `s`, if any. */
  function MatchDelimiter(s: string): (r: Option<string>)
    ensures r.Some? ==> r.value in Delimiters && r.value <= s && r.value != []
  {
    FirstPrefix(Delimiters, s)
  }

  /** The pieces of a split: `fragments` are what `re.split` returns, and
      `separators` the text each match consumed between them. */
  datatype Pieces = Pieces(fragments: seq<string>, separators: seq<string>)

  /** Scans `s` left to right; `cur` is the fragment read so far. At each
      position the first matching alternative is consumed and closes the
      fragment; otherwise the character joins the fragment. */
  function Scan(s: string, cur: string): (r: Pieces)
    ensures |r.fragments| == |r.separators| + 1
    decreases |s|
  {
    if s == [] then Pieces([cur], [])
    else match MatchDelimiter(s)
      case Some(d) =>
        var rest := Scan(s[|d|..], []);
        Pieces([cur] + rest.fragments, [d] + rest.separators)
      case None => Scan(s[1..], cur + [s[0]])
  }

  /** `re.split(pattern, s)`, with the separators it consumed. */
  function Split(s: string): (r: Pieces)
    ensures |r.fragments| == |r.separators| + 1
  {
    Scan(s, [])
  }

  /** The fragments with the separators put back between them. */
  function Join(fragments: seq<string>, separators: seq<string>): string
    requires |fragments| == |separators| + 1
    decreases |separators|
  {
    if separators == [] then fragments[0]
    else fragments[0] + separators[0] + Join(fragments[1..], separators[1..])
  }

  lemma JoinCons(f: string, fs: seq<string>, d: string, ds: seq<string>)
    requires |fs| == |ds| + 1
    ensures Join([f] + fs, [d] + ds) == f + (d + Join(fs, ds))
  {
    assert ([f] + fs)[1..] == fs && ([d] + ds)[1..] == ds;
  }

  /** One step of the scan at a separator `d`. */
  lemma ScanAtDelimiter(s: string, cur: string, d: string)
    requires MatchDelimiter(s) == Some(d)
    ensures Scan(s, cur) == Pieces([cur] + Scan(s[|d|..], []).fragments, [d] + Scan(s[|d|..], []).separators)
  {
  }

  lemma JoinStep(cur: string, d: string, tail: string, rest: Pieces, r: Pieces, s: string)
    requires |rest.fragments| == |rest.separators| + 1
    requires r == Pieces([cur] + rest.fragments, [d] + rest.separators)
    requires Join(rest.fragments, rest.separators) == [] + tail && s == d + tail
    ensures Join(r.fragments, r.separators) == cur + s
  {
    JoinCons(cur, rest.fragments, d, rest.separators);
    assert [] + tail == tail;
  }

  lemma {:induction false} ScanJoins(s: string, cur: string)
    ensures Join(Scan(s, cur).fragments, Scan(s, cur).separators) == cur + s
    decreases |s|
  {
    if s == [] {
      assert cur + s == cur;
    } else if MatchDelimiter(s).Some? {
      var d := MatchDelimiter(s).value;
      var tail := s[|d|..];
      ScanJoins(tail, []);
      ScanAtDelimiter(s, cur, d);
      assert s == d + tail;
      JoinStep(cur, d, tail, Scan(tail, []), Scan(s, cur), s);
    } else {
      ScanJoins(s[1..], cur + [s[0]]);
      assert cur + [s[0]] + s[1..] == cur + s;
    }
  }

  lemma {:induction false} ScanSeparators(s: string, cur: string)
    ensures forall d | d in Scan(s, cur).separators :: d in Delimiters
    decreases |s|
  {
    if s != [] {
      match MatchDelimiter(s)
      case Some(d) => ScanSeparators(s[|d|..], []);
      case None => ScanSeparators(s[1..], cur + [s[0]]);
    }
  }

  /** Splitting loses nothing: the fragments and the separators between
      them, joined, give back the input, and each separator is one of the
      alternatives of the pattern. */
  lemma SplitRejoins(s: string)
    ensures Join(Split(s).fragments, Split(s).separators) == s
    ensures forall d | d in Split(s).separators :: d in Delimiters
  {
    ScanJoins(s, []);
    ScanSeparators(s, []);
  }

  /** No separator of the pattern starts anywhere in `f`. */
  predicate DelimiterFree(f: string) {
    forall i | 0 <= i < |f| :: MatchDelimiter(f[i..]).None?
  }

  /** A prefix of a prefix is a prefix. */
  lemma PrefixOfPrefix(d: string, x: string, y: string)
    requires x <= y
    ensures d <= x ==> d <= y
  {
    if d <= x {
      assert d == x[..|d|] == y[..|d|];
    }
  }

  /** Where no separator starts a text, none starts any prefix of it. */
  lemma NoMatchInPrefix(x: string, y: string)
    requires x <= y && MatchDelimiter(y).None?
    ensures MatchDelimiter(x).None?
  {
    FirstPrefixNone(Delimiters, y);
    forall d | d in Delimiters ensures !(d <= x) {
      PrefixOfPrefix(d, x, y);
    }
    FirstPrefixNone(Delimiters, x);
  }

  lemma {:induction false} ScanFragmentsFree(s: string, cur: string)
    requires forall i | 0 <= i < |cur| :: MatchDelimiter((cur + s)[i..]).None?
    ensures forall f | f in Scan(s, cur).fragments :: DelimiterFree(f)
    decreases |s|
  {
    if s == [] {
      assert cur + s == cur;
    } else {
      match MatchDelimiter(s)
      case Some(d) =>
        ScanFragmentsFree(s[|d|..], []);
        forall i | 0 <= i < |cur| ensures MatchDelimiter(cur[i..]).None? {
          assert cur[i..] <= (cur + s)[i..];
          NoMatchInPrefix(cur[i..], (cur + s)[i..]);
        }
      case None =>
        var cur' := cur + [s[0]];
        assert cur' + s[1..] == cur + s;
        assert (cur + s)[|cur|..] == s;
        ScanFragmentsFree(s[1..], cur');
    }
  }

  /** The fragments of a split contain no separator: read on its own, no
      fragment has a position where the pattern matches. (Which cut the
      split makes is pinned by `Leftmost` below.) */
  lemma SplitFragmentsFree(s: string)
    ensures forall f | f in Split(s).fragments :: DelimiterFree(f)
  {
    ScanFragmentsFree(s, []);
  }

  /** What an alternation finds at the start of a text, if anything. */
  type Matcher = string -> Option<string>

  /** The first fragment of a left-to-right cut by `m`: a prefix of `s` at
      none of whose positions `m` finds anything. */
  predicate FirstFragment(m: Matcher, s: string, f: string) {
    |f| <= |s| && s[..|f|] == f && forall k | 0 <= k < |f| :: m(s[k..]).None?
  }

  /** `fragments` and `separators` cut `s` the way a left-to-right split
      by `m` does: the first fragment is a prefix of `s` at none of whose
      positions `m` finds anything; then either it is all of `s`, or `m`
      finds the first separator, non-empty, right after it, and the text
      after that separator is cut the same way. */
  predicate Leftmost(m: Matcher, s: string, fragments: seq<string>, separators: seq<string>)
    decreases |separators|
  {
    && |fragments| == |separators| + 1
    && FirstFragment(m, s, fragments[0])
    && if separators == [] then fragments[0] == s
       else
         && separators[0] != [] && |fragments[0]| + |separators[0]| <= |s|
         && m(s[|fragments[0]|..]) == Some(separators[0])
         && Leftmost(m, s[|fragments[0]| + |separators[0]|..], fragments[1..], separators[1..])
  }

  /** A text at none of whose positions `m` finds anything is cut into
      itself alone. */
  lemma LeftmostLast(m: Matcher, s: string)
    requires FirstFragment(m, s, s)
    ensures Leftmost(m, s, [s], [])
  {
  }

  /** A first fragment, the separator found right after it, and a
      left-to-right cut of the rest make a left-to-right cut. */
  lemma LeftmostCons(m: Matcher, s: string, f: string, d: string, fragments: seq<string>, separators: seq<string>)
    requires FirstFragment(m, s, f) && d != [] && |f| + |d| <= |s| && m(s[|f|..]) == Some(d)
    requires Leftmost(m, s[|f| + |d|..], fragments, separators)
    ensures Leftmost(m, s, [f] + fragments, [d] + separators)
  {
    assert ([f] + fragments)[1..] == fragments && ([d] + separators)[1..] == separators;
  }

  /** A character at which nothing is found, followed by a first fragment,
      is a first fragment. */
  lemma FirstFragmentShift(m: Matcher, s: string, g: string)
    requires s != [] && m(s).None? && FirstFragment(m, s[1..], g)
    ensures FirstFragment(m, s, [s[0]] + g)
  {
    var f := [s[0]] + g;
    assert s[..|f|] == [s[0]] + s[1..][..|g|];
    forall k | 0 <= k < |f| ensures m(s[k..]).None? {
      if k == 0 { assert s[k..] == s; } else { assert s[k..] == s[1..][k - 1..]; }
    }
  }

  /** A character at which nothing is found joins the first fragment. */
  lemma LeftmostShift(m: Matcher, s: string, g: string, fragments: seq<string>, separators: seq<string>)
    requires s != [] && m(s).None?
    requires Leftmost(m, s[1..], [g] + fragments, separators)
    ensures Leftmost(m, s, [[s[0]] + g] + fragments, separators)
  {
    var f := [s[0]] + g;
    assert ([g] + fragments)[1..] == fragments;
    FirstFragmentShift(m, s, g);
    if separators == [] {
      assert s == [s[0]] + s[1..];
      assert fragments == [];
      LeftmostLast(m, s);
    } else {
      var d := separators[0];
      assert m(s[1..][|g|..]) == Some(d);
      DropOneMore(s, |g|);
      DropOneMore(s, |g| + |d|);
      LeftmostCons(m, s, f, d, fragments, separators[1..]);
      assert [d] + separators[1..] == separators;
    }
  }

  /** There is only one left-to-right way to cut a text. */
  lemma {:induction false} LeftmostUnique(m: Matcher, s: string, f1: seq<string>, d1: seq<string>, f2: seq<string>, d2: seq<string>)
    requires Leftmost(m, s, f1, d1) && Leftmost(m, s, f2, d2)
    ensures f1 == f2 && d1 == d2
    decreases |d1|
  {
    var a, b := f1[0], f2[0];
    if |a| < |b| {
      assert false;
    }
    if |b| < |a| {
      assert false;
    }
    assert a == b;
    if d1 == [] || d2 == [] {
      assert d1 == [] && d2 == [];
      assert f1 == [a] && f2 == [b];
    } else {
      assert d1[0] == d2[0];
      LeftmostUnique(m, s[|a| + |d1[0]|..], f1[1..], d1[1..], f2[1..], d2[1..]);
      assert f1 == [a] + f1[1..] && f2 == [b] + f2[1..];
      assert d1 == [d1[0]] + d1[1..] && d2 == [d2[0]] + d2[1..];
    }
  }

  /** The scan cuts the text it has still to read the left-to-right way;
      the fragment it has read so far, `cur`, begins the first fragment. */
  predicate ScanCutsLeftmost(s: string, cur: string) {
    var p := Scan(s, cur);
    && |cur| <= |p.fragments[0]| && p.fragments[0] == cur + p.fragments[0][|cur|..]
    && Leftmost(MatchDelimiter, s, [p.fragments[0][|cur|..]] + p.fragments[1..], p.separators)
  }

  /** At a separator the scan closes the fragment read so far. */
  lemma ScanCutsAtDelimiter(s: string, cur: string, d: string)
    requires MatchDelimiter(s) == Some(d) && ScanCutsLeftmost(s[|d|..], [])
    ensures ScanCutsLeftmost(s, cur)
  {
    var p := Scan(s, cur);
    var rest := Scan(s[|d|..], []);
    assert rest.fragments[0][0..] == rest.fragments[0];
    assert [rest.fragments[0]] + rest.fragments[1..] == rest.fragments;
    assert p.fragments[0][|cur|..] == [];
    assert s[0..] == s && s[..0] == [];
    LeftmostCons(MatchDelimiter, s, [], d, rest.fragments, rest.separators);
    assert [p.fragments[0][|cur|..]] + p.fragments[1..] == [[]] + rest.fragments;
  }

  /** Elsewhere the scan adds the character to the fragment read so far. */
  lemma ScanCutsElsewhere(s: string, cur: string)
    requires s != [] && MatchDelimiter(s).None? && ScanCutsLeftmost(s[1..], cur + [s[0]])
    ensures ScanCutsLeftmost(s, cur)
  {
    var p := Scan(s, cur);
    var g := p.fragments[0][|cur| + 1..];
    LeftmostShift(MatchDelimiter, s, g, p.fragments[1..], p.separators);
    assert p.fragments[0][|cur|..] == [s[0]] + g;
  }

  lemma {:induction false} ScanLeftmost(s: string, cur: string)
    ensures ScanCutsLeftmost(s, cur)
    decreases |s|
  {
    if s == [] {
      assert Scan(s, cur).fragments[0][|cur|..] == [];
    } else {
      match MatchDelimiter(s)
      case Some(d) =>
        ScanLeftmost(s[|d|..], []);
        ScanCutsAtDelimiter(s, cur, d);
      case None =>
        ScanLeftmost(s[1..], cur + [s[0]]);
        ScanCutsElsewhere(s, cur);
    }
  }

  /** The split cuts the text the left-to-right way. */
  lemma SplitIsLeftmost(s: string)
    ensures Leftmost(MatchDelimiter, s, Split(s).fragments, Split(s).separators)
  {
    ScanLeftmost(s, []);
    var p := Split(s);
    assert p.fragments[0][0..] == p.fragments[0];
    assert [p.fragments[0]] + p.fragments[1..] == p.fragments;
  }

  /** `re.split` is pinned by the left-to-right rule: pieces cut that way
      are exactly the split, and the split is cut that way. */
  lemma LeftmostIsSplit(s: string, fragments: seq<string>, separators: seq<string>)
    ensures Leftmost(MatchDelimiter, s, fragments, separators) <==> Split(s) == Pieces(fragments, separators)
  {
    SplitIsLeftmost(s);
    if Leftmost(MatchDelimiter, s, fragments, separators) {
      LeftmostUnique(MatchDelimiter, s, fragments, separators, Split(s).fragments, Split(s).separators);
    }
  }

  /** Text without a separator is not split. */
  lemma {:induction false} ScanFree(s: string, cur: string)
    requires DelimiterFree(s)
    ensures Scan(s, cur) == Pieces([cur + s], [])
    decreases |s|
  {
    if s == [] {
      assert cur + s == cur;
    } else {
      assert s[0..] == s;
      assert forall i | 0 <= i < |s[1..]| :: s[1..][i..] == s[i + 1..];
      ScanFree(s[1..], cur + [s[0]]);
      assert cur + [s[0]] + s[1..] == cur + s;
    }
  }

  /** A piece of separator-free text is separator-free. */
  lemma FreeInfix(f: string, a: nat, b: nat)
    requires DelimiterFree(f) && a <= b <= |f|
    ensures DelimiterFree(f[a..b])
  {
    forall i | 0 <= i < b - a ensures MatchDelimiter(f[a..b][i..]).None? {
      assert f[a..b][i..] <= f[a + i..];
      NoMatchInPrefix(f[a..b][i..], f[a + i..]);
    }
  }

  /** Separator-free text has none of the one-character separators. */
  lemma FreeHasNoDelimiterChar(f: string)
    requires DelimiterFree(f)
    ensures forall k | 0 <= k < |f| :: !IsDelimiterChar(f[k])
  {
    forall k | 0 <= k < |f| ensures !IsDelimiterChar(f[k]) {
      var rest := f[k..];
      assert [f[k]] <= rest;
      assert MatchDelimiter(rest).None?;
      FirstPrefixNone(Delimiters, rest);
      assert [f[k]] !in Delimiters;
    }
  }

  /** A token: non-empty, stripped, lower-case, and free of the
      one-character separators. */
  predicate IsToken(t: string) {
    && t != []
    && IsStripped(t)
    && IsLower(t)
    && forall k | 0 <= k < |t| :: !IsDelimiterChar(t[k])
  }

  /** `[v.strip().lower() for v in fragments if v.strip()]`: every
      non-blank fragment gives a token, in fragment order. */
  function Tokens(fragments: seq<string>): (r: seq<string>)
    ensures |r| <= |fragments|
    ensures forall f | f in fragments && Strip(f) != [] :: Lower(Strip(f)) in r
  {
    if fragments == [] then []
    else
      var f := fragments[0];
      var rest := Tokens(fragments[1..]);
      assert forall g | g in fragments :: g == f || g in fragments[1..];
      (if Strip(f) != [] then [Lower(Strip(f))] else []) + rest
  }

  /** The tokens are the non-blank fragments, stripped and lowered, in
      fragment order. */
  lemma {:induction false} TokensInOrder(fragments: seq<string>)
    ensures Tokens(fragments) == Map(Filter(fragments, f => Strip(f) != []), f => Lower(Strip(f)))
  {
    if fragments != [] {
      TokensInOrder(fragments[1..]);
      var kept := Filter(fragments[1..], f => Strip(f) != []);
      if Strip(fragments[0]) != [] {
        assert Filter(fragments, f => Strip(f) != []) == [fragments[0]] + kept;
        assert ([fragments[0]] + kept)[1..] == kept;
      }
    }
  }

  /** Every token comes from a non-blank fragment. */
  lemma {:induction false} TokenSource(fragments: seq<string>, t: string) returns (f: string)
    requires t in Tokens(fragments)
    ensures f in fragments && Strip(f) != [] && t == Lower(Strip(f))
  {
    var g := fragments[0];
    if Strip(g) != [] && t == Lower(Strip(g)) {
      f := g;
    } else {
      assert t in Tokens(fragments[1..]);
      f := TokenSource(fragments[1..], t);
    }
  }

  /** Lowering a stripped, non-blank text free of one-character separators
      gives a token. */
  lemma LowerIsToken(t: string)
    requires t != [] && IsStripped(t)
    requires forall k | 0 <= k < |t| :: !IsDelimiterChar(t[k])
    ensures IsToken(Lower(t))
  {
    var l := Lower(t);
    assert IsSpace(l[0]) == IsSpace(t[0]) && IsSpace(l[|l| - 1]) == IsSpace(t[|t| - 1]);
    forall k | 0 <= k < |l| ensures !IsDelimiterChar(l[k]) {
      if IsUpper(t[k]) {
        assert 'a' <= l[k] <= 'z';
      } else {
        assert l[k] == t[k];
      }
    }
  }

  /** The token a separator-free, non-blank fragment gives is a token, and
      stripping keeps it separator-free. */
  lemma FragmentToken(f: string)
    requires DelimiterFree(f) && Strip(f) != []
    ensures IsToken(Lower(Strip(f)))
    ensures DelimiterFree(Strip(f))
  {
    var t := Strip(f);
    FreeInfix(f, LeadingSpace(f), StripEnd(f));
    FreeHasNoDelimiterChar(t);
    LowerIsToken(t);
  }

  /** `split_trait_values`: a missing cell gives no tokens; a string cell
      gives the non-blank fragments of its split, stripped and lowered, in
      order, duplicates kept. */
  function SplitTraitValues(val: Option<string>): (r: seq<string>)
    ensures val.None? ==> r == []
    ensures forall t | t in r :: IsToken(t)
  {
    match val
    case None => []
    case Some(v) =>
      var fragments := Split(v).fragments;
      SplitFragmentsFree(v);
      var r := Tokens(fragments);
      forall t | t in r ensures IsToken(t) {
        var f := TokenSource(fragments, t);
        FragmentToken(f);
      }
      r
  }

  lemma {:induction false} ScanLower(s: string, cur: string)
    requires IsLower(cur) && IsLower(s)
    ensures forall f | f in Scan(s, cur).fragments :: IsLower(f)
    decreases |s|
  {
    if s != [] {
      match MatchDelimiter(s)
      case Some(d) => ScanLower(s[|d|..], []);
      case None => ScanLower(s[1..], cur + [s[0]]);
    }
  }

  /** Every token of a cell comes from a non-blank fragment of its split. */
  lemma TokenFragment(v: string, t: string) returns (f: string)
    requires t in SplitTraitValues(Some(v))
    ensures f in Split(v).fragments && Strip(f) != [] && t == Lower(Strip(f))
  {
    f := TokenSource(Split(v).fragments, t);
  }

  /** The fragments of lower-case text are lower-case and separator-free. */
  lemma LowerFragment(v: string, f: string)
    requires IsLower(v) && f in Split(v).fragments
    ensures IsLower(f) && DelimiterFree(f)
  {
    ScanLower(v, []);
    SplitFragmentsFree(v);
  }

  /** Stripping a lower-case, separator-free fragment gives text that
      lowering leaves alone and that is still separator-free. */
  lemma StrippedLowerFragment(f: string)
    requires IsLower(f) && DelimiterFree(f) && Strip(f) != []
    ensures Lower(Strip(f)) == Strip(f) && DelimiterFree(Strip(f))
  {
    FragmentToken(f);
    assert IsLower(Strip(f));
    LowerOfLower(Strip(f));
  }

  /** A token of lower-case text is what stripping its fragment gives,
      and is separator-free. */
  lemma LowerTokenIsStrippedFragment(v: string, t: string) returns (f: string)
    requires IsLower(v) && t in SplitTraitValues(Some(v))
    ensures t == Strip(f) && DelimiterFree(t)
  {
    f := TokenFragment(v, t);
    LowerFragment(v, f);
    StrippedLowerFragment(f);
  }

  /** A token made of separator-free text splits into itself alone. */
  lemma FreeTokenSplitsToItself(t: string)
    requires IsToken(t) && DelimiterFree(t)
    ensures SplitTraitValues(Some(t)) == [t]
  {
    ScanFree(t, []);
    assert [] + t == t;
    assert Split(t).fragments == [t];
    StripStripped(t);
    LowerOfLower(t);
    assert Tokens([t]) == [Lower(Strip(t))] + Tokens([]);
  }

  /** Re-tokenising a token of lower-case text gives that token back: the
      values offered for selection come back unchanged when the selection
      is split again. */
  lemma TokenIsFixedPoint(v: string, t: string)
    requires IsLower(v) && t in SplitTraitValues(Some(v))
    ensures SplitTraitValues(Some(t)) == [t]
  {
    var f := LowerTokenIsStrippedFragment(v, t);
    FreeTokenSplitsToItself(t);
  }

  /** No separator starts at a character that begins none of them. */
  lemma NoMatchAt(s: string)
    requires s != [] && s[0] !in [',', ' ', '\U{2013}', '+', '-']
    ensures MatchDelimiter(s) == None
  {
    forall d | d in Delimiters ensures !(d <= s) {
      assert d[0] in [',', ' ', '\U{2013}', '+', '-'];
    }
    FirstPrefixNone(Delimiters, s);
  }

  /** A character that begins no separator, followed by a separator, is a
      fragment of its own. */
  lemma FirstFragmentAlone(s: string)
    requires |s| > 1 && s[0] !in [',', ' ', '\U{2013}', '+', '-']
    requires MatchDelimiter(s[1..]).Some?
    ensures Split(s).fragments[0] == [s[0]]
  {
    NoMatchAt(s);
    assert Scan(s, []) == Scan(s[1..], [] + [s[0]]);
    ScanAtDelimiter(s[1..], [s[0]], MatchDelimiter(s[1..]).value);
  }

  /** A character that can occur in no separator without being one: a
      one-character separator or a lower-case ASCII letter. */
  predicate InSeparator(c: char) {
    IsDelimiterChar(c) || 'a' <= c <= 'z'
  }

  /** Every separator has such a character among its first two. */
  lemma SeparatorsHaveMark()
    ensures forall d | d in Delimiters :: InSeparator(d[0]) || (|d| > 1 && InSeparator(d[1]))
  {
  }

  /** Text with no lower-case letter and no one-character separator holds
      no separator: " TO " and " AND " are not separators. */
  lemma UpperFree(s: string)
    requires forall k | 0 <= k < |s| :: !InSeparator(s[k])
    ensures DelimiterFree(s)
  {
    SeparatorsHaveMark();
    forall i | 0 <= i < |s| ensures MatchDelimiter(s[i..]).None? {
      forall d | d in Delimiters ensures !(d <= s[i..]) {
        if InSeparator(d[0]) {
          assert d[0] != s[i..][0];
        } else if i + 1 < |s| {
          assert d[1] != s[i..][1];
        }
      }
      FirstPrefixNone(Delimiters, s[i..]);
    }
  }

  /** Such text, stripped and non-blank, is one token: itself, lowered. */
  lemma UpperSplitsToItself(s: string)
    requires s != [] && IsStripped(s)
    requires forall k | 0 <= k < |s| :: !InSeparator(s[k])
    ensures SplitTraitValues(Some(s)) == [Lower(s)]
  {
    UpperFree(s);
    ScanFree(s, []);
    assert [] + s == s;
    StripStripped(s);
    assert Tokens([s]) == [Lower(Strip(s))] + Tokens([]);
  }

  lemma MatchTo()
    ensures MatchDelimiter(" to b").Some?
  {
    assert " to " <= " to b";
    assert " to " in Delimiters by { assert Delimiters[3] == " to "; }
    FirstPrefixNone(Delimiters, " to b");
  }

  lemma UpperCaseText()
    ensures "A TO B" != [] && IsStripped("A TO B")
    ensures forall k | 0 <= k < |"A TO B"| :: !InSeparator("A TO B"[k])
  {
  }

  lemma LowerUpperCaseText()
    ensures Lower("A TO B") == "a to b"
  {
    var l := Lower("A TO B");
    assert l == seq(6, k requires 0 <= k < 6 => LowerChar("A TO B"[k]));
  }

  /** " to " and " and " separate only when written in lower case: the
      upper-case cell "A TO B" is one token... */
  lemma UpperCaseToExample()
    ensures SplitTraitValues(Some("A TO B")) == ["a to b"]
  {
    UpperCaseText();
    UpperSplitsToItself("A TO B");
    LowerUpperCaseText();
  }

  /** ...while the same cell lowered has "a" among its tokens. */
  lemma LowerCaseToExample()
    ensures "a" in SplitTraitValues(Some("a to b"))
  {
    assert "a to b"[1..] == " to b";
    MatchTo();
    FirstFragmentAlone("a to b");
    var f := Split("a to b").fragments[0];
    StripStripped(f);
    LowerOfLower(f);
  }
}
