/** The cell normaliser the loader applies to every cell of the table
    (app.py line 14): a string keeps what comes before its first " (",
    stripped; any other cell passes through. */
module Normalizer {
  import opened Options
  import opened Text

  /** `s` has the two characters " (" starting at index `i`. */
  predicate ParenAt(s: string, i: int) {
    0 <= i && i + 1 < |s| && s[i] == ' ' && s[i + 1] == '('
  }

  predicate HasParen(s: string) {
    exists i | 0 <= i < |s| :: ParenAt(s, i)
  }

  /** `s.split(" (")[0]`: the longest prefix of `s` that has no " (" and
      is either all of `s` or followed by " (". */
  function BeforeParen(s: string): (r: string)
    ensures r <= s
    ensures !HasParen(r)
    ensures r == s || ParenAt(s, |r|)
  {
    if |s| < 2 then s
    else if s[0] == ' ' && s[1] == '(' then []
    else
      var rest := BeforeParen(s[1..]);
      var r := [s[0]] + rest;
      assert forall i | ParenAt(r, i) :: i > 0 && ParenAt(rest, i - 1);
      r
  }

  /** A piece of a string without " (" has none either. */
  lemma NoParenInInfix(s: string, a: nat, b: nat)
    requires a <= b <= |s| && !HasParen(s)
    ensures !HasParen(s[a..b])
  {
    forall i | ParenAt(s[a..b], i) ensures ParenAt(s, a + i) { }
  }

  /** The normaliser. A missing cell stays missing; a string cell comes out
      with no " (" in it and no whitespace at its ends. */
  function Normalize(cell: Option<string>): (r: Option<string>)
    ensures cell.None? <==> r.None?
    ensures r.Some? ==> !HasParen(r.value) && IsStripped(r.value)
  {
    match cell
    case None => None
    case Some(s) =>
      var p := BeforeParen(s);
      NoParenInInfix(p, LeadingSpace(p), StripEnd(p));
      Some(Strip(p))
  }

  /** What the normaliser keeps of a string: the part before the first
      " (", less the whitespace at either end of that part. */
  lemma NormalizeKeepsInfix(s: string) returns (a: nat, b: nat)
    ensures var p := BeforeParen(s);
            && a <= b <= |p|
            && Normalize(Some(s)) == Some(p[a..b])
            && (forall k | 0 <= k < a :: IsSpace(p[k]))
            && (forall k | b <= k < |p| :: IsSpace(p[k]))
  {
    var p := BeforeParen(s);
    a, b := LeadingSpace(p), StripEnd(p);
  }

  /** A string with no " (" is its own prefix before " (". */
  lemma BeforeParenNoParen(s: string)
    requires !HasParen(s)
    ensures BeforeParen(s) == s
  {
  }

  /** A cell the normaliser can have produced: missing, or a string with
      no " (" and no whitespace at its ends. */
  predicate IsNormal(cell: Option<string>) {
    cell.Some? ==> !HasParen(cell.value) && IsStripped(cell.value)
  }

  /** The normaliser leaves exactly the normal cells unchanged: every cell
      it produces is normal, and a normal cell is its own result. */
  lemma NormalizeFixesNormal(cell: Option<string>)
    ensures IsNormal(Normalize(cell))
    ensures Normalize(cell) == cell <==> IsNormal(cell)
  {
    if cell.Some? && IsNormal(cell) {
      BeforeParenNoParen(cell.value);
      StripStripped(cell.value);
    }
  }

  /** Normalising twice is normalising once: the loaded table is a fixed
      point of the normaliser. */
  lemma NormalizeIdempotent(cell: Option<string>)
    ensures Normalize(Normalize(cell)) == Normalize(cell)
  {
    NormalizeFixesNormal(cell);
    NormalizeFixesNormal(Normalize(cell));
  }

  lemma BeforeParenExample()
    ensures BeforeParen("Red (RGB ff0000)") == "Red"
  {
    var s := "Red (RGB ff0000)";
    assert s[3..][0] == ' ' && s[3..][1] == '(';
    assert BeforeParen(s[3..]) == [];
    assert s[2..][1..] == s[3..] && s[2..][0] == 'd';
    assert BeforeParen(s[2..]) == "d";
    assert s[1..][1..] == s[2..] && s[1..][0] == 'e';
    assert BeforeParen(s[1..]) == "ed";
  }

  /** An annotation in parentheses is cut off, with the space before it. */
  lemma NormalizeExampleAnnotated()
    ensures Normalize(Some("Red (RGB ff0000)")) == Some("Red")
  {
    BeforeParenExample();
    StripStripped("Red");
  }

  /** A plain value is kept as it is. */
  lemma NormalizeExamplePlain()
    ensures Normalize(Some("Blue")) == Some("Blue")
  {
    BeforeParenNoParen("Blue");
    StripStripped("Blue");
  }
}
