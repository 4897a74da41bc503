/** The whitespace rule behind the empty-input guard of addTodo: `input.trim() === ""`. */
module JsText {

  /** The characters `String.prototype.trim` strips: the ECMAScript WhiteSpace
      and LineTerminator code points (all of them in the Basic Multilingual Plane). */
  predicate IsTrimmable(c: char) {
    || c == '\t' || c == '\n' || c == '\U{B}' || c == '\U{C}' || c == '\r' || c == ' '
    || c == '\U{A0}' || c == '\U{1680}' || ('\U{2000}' <= c <= '\U{200A}')
    || c == '\U{2028}' || c == '\U{2029}' || c == '\U{202F}' || c == '\U{205F}'
    || c == '\U{3000}' || c == '\U{FEFF}'
  }

  /** Every character of `s` is one that trim strips. */
  predicate IsBlank(s: string) {
    forall i :: 0 <= i < |s| ==> IsTrimmable(s[i])
  }

  /** The number of trimmable characters at the start of `s`: all of them are
      trimmable, and the character after them, if any, is not. */
  function LeadingBlanks(s: string): (k: nat)
    ensures k <= |s|
    ensures forall i :: 0 <= i < k ==> IsTrimmable(s[i])
    ensures k == |s| || !IsTrimmable(s[k])
  {
    if s == [] || !IsTrimmable(s[0]) then 0 else 1 + LeadingBlanks(s[1..])
  }

  /** The number of trimmable characters at the end of `s`: all of them are
      trimmable, and the character before them, if any, is not. */
  function TrailingBlanks(s: string): (k: nat)
    ensures k <= |s|
    ensures forall i :: |s| - k <= i < |s| ==> IsTrimmable(s[i])
    ensures k == |s| || !IsTrimmable(s[|s| - k - 1])
  {
    if s == [] || !IsTrimmable(s[|s| - 1]) then 0 else 1 + TrailingBlanks(s[..|s| - 1])
  }

  /** `String.prototype.trim`: `s` without its leading and trailing trimmable characters. */
  function Trim(s: string): (r: string)
    ensures LeadingBlanks(s) + |r| <= |s|
    ensures r == s[LeadingBlanks(s)..LeadingBlanks(s) + |r|]
    ensures forall i :: LeadingBlanks(s) + |r| <= i < |s| ==> IsTrimmable(s[i])
    ensures r != [] ==> !IsTrimmable(r[0]) && !IsTrimmable(r[|r| - 1])
  {
    var k := LeadingBlanks(s);
    var t := s[k..];
    var r := t[..|t| - TrailingBlanks(t)];
    CutEnds(s, k, t, r);
    r
  }

  /** What the two cuts leave: a run of `s` with untrimmable ends, followed in `s` only
      by trimmable characters. */
  lemma CutEnds(s: string, k: nat, t: string, r: string)
    requires k == LeadingBlanks(s) && t == s[k..] && r == t[..|t| - TrailingBlanks(t)]
    ensures k + |r| <= |s| && r == s[k..k + |r|]
    ensures forall i :: k + |r| <= i < |s| ==> IsTrimmable(s[i])
    ensures r != [] ==> !IsTrimmable(r[0]) && !IsTrimmable(r[|r| - 1])
  {
    forall i | k + |r| <= i < |s| ensures IsTrimmable(s[i]) {
      assert s[i] == t[i - k];
    }
    if r != [] {
      assert r[0] == t[0] == s[k];
      assert r[|r| - 1] == t[|t| - TrailingBlanks(t) - 1];
    }
  }

  /** Trimming leaves nothing exactly when the text is made of whitespace only:
      the guard rejects precisely the blank inputs. */
  lemma TrimEmptyIffBlank(s: string)
    ensures Trim(s) == [] <==> IsBlank(s)
  {
    NonBlankSurvives(s);
  }

  /** A character that is not trimmable stops the leading cut and survives the trailing one. */
  lemma NonBlankSurvives(s: string)
    ensures LeadingBlanks(s) < |s| ==> Trim(s) != []
  {
    var k := LeadingBlanks(s);
    var t := s[k..];
    if k < |s| {
      assert t[0] == s[k];
    }
  }

  /** A trimmed string is a fixed point of trim. */
  lemma TrimIdempotent(s: string)
    ensures Trim(Trim(s)) == Trim(s)
  {
    UntrimmableEndsFixed(Trim(s));
  }

  /** Trim leaves alone a string whose ends are not trimmable. */
  lemma UntrimmableEndsFixed(r: string)
    requires r != [] ==> !IsTrimmable(r[0]) && !IsTrimmable(r[|r| - 1])
    ensures Trim(r) == r
  {
    assert r[0..] == r;
    assert r[..|r|] == r;
  }
}
