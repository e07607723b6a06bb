/**
 * `String.prototype.replace` with a string pattern (ECMA-262 5.1, section
 * 15.5.4.11): only the first occurrence of the pattern is replaced, and the
 * replacement text is expanded by GetSubstitution, which gives `$$`, `$&`,
 * `` $` `` and `$'` a meaning.
 */
module StringReplace {
  import opened Wrappers

  predicate OccursAt(s: string, pat: string, i: nat) {
    i + |pat| <= |s| && s[i..i + |pat|] == pat
  }

  /** `s.indexOf(pat, from)`: the first position at or after `from` where `pat` occurs. */
  function IndexOfFrom(s: string, pat: string, from: nat): (r: Option<nat>)
    decreases |s| - from
    ensures r.Some? ==> from <= r.value && OccursAt(s, pat, r.value)
    ensures r.Some? ==> forall j: nat :: from <= j < r.value ==> !OccursAt(s, pat, j)
    ensures r.None? ==> forall j: nat :: from <= j ==> !OccursAt(s, pat, j)
  {
    if from + |pat| > |s| then None
    else if OccursAt(s, pat, from) then Some(from)
    else IndexOfFrom(s, pat, from + 1)
  }

  /** `s.indexOf(pat)`. */
  function IndexOf(s: string, pat: string): (r: Option<nat>)
    ensures r.Some? ==> OccursAt(s, pat, r.value) && forall j: nat :: j < r.value ==> !OccursAt(s, pat, j)
    ensures r.None? <==> forall j: nat :: !OccursAt(s, pat, j)
  {
    IndexOfFrom(s, pat, 0)
  }

  /**
   * GetSubstitution for a match of `matched` at `position` in `str` and no
   * capture groups: `$$` stands for `$`, `$&` for the match, `` $` `` for the
   * text before it, `$'` for the text after it; any other `$` is literal.
   */
  function Substitution(matched: string, str: string, position: nat, rep: string): (r: string)
    requires position + |matched| <= |str|
    decreases |rep|
  {
    if rep == [] then []
    else if rep[0] == '$' && |rep| >= 2 && (rep[1] == '$' || rep[1] == '&' || rep[1] == '`' || rep[1] == '\'') then
      var expansion :=
        if rep[1] == '$' then "$"
        else if rep[1] == '&' then matched
        else if rep[1] == '`' then str[..position]
        else str[position + |matched|..];
      expansion + Substitution(matched, str, position, rep[2..])
    else [rep[0]] + Substitution(matched, str, position, rep[1..])
  }

  /**
   * `s.replace(pat, rep)` with a string `pat`: without an occurrence the
   * string is kept; otherwise the text before the first occurrence and the
   * text after it are kept around the substituted replacement.
   */
  function ReplaceFirst(s: string, pat: string, rep: string): (r: string)
    ensures IndexOf(s, pat).None? ==> r == s
    ensures IndexOf(s, pat).Some? ==> var i := IndexOf(s, pat).value;
      && |r| >= i + |s| - (i + |pat|)
      && r[..i] == s[..i]
      && r[|r| - (|s| - (i + |pat|))..] == s[i + |pat|..]
  {
    match IndexOf(s, pat)
    case None => s
    case Some(i) => s[..i] + Substitution(pat, s, i, rep) + s[i + |pat|..]
  }

  /** A replacement without `$` is inserted literally. */
  lemma {:induction false} SubstitutionLiteral(matched: string, str: string, position: nat, rep: string)
    requires position + |matched| <= |str|
    requires forall i :: 0 <= i < |rep| ==> rep[i] != '$'
    ensures Substitution(matched, str, position, rep) == rep
  {
    if rep != [] {
      SubstitutionLiteral(matched, str, position, rep[1..]);
      assert [rep[0]] + rep[1..] == rep;
    }
  }

  /** A string without the pattern comes back unchanged. */
  lemma ReplaceAbsent(s: string, pat: string, rep: string)
    requires forall j: nat :: !OccursAt(s, pat, j)
    ensures ReplaceFirst(s, pat, rep) == s
  {
  }

  /**
   * When the first occurrence of `pat` follows the prefix `a`, exactly that
   * occurrence is replaced by a `$`-free replacement; the text around it is
   * kept, later occurrences included.
   */
  lemma ReplaceFirstOccurrence(a: string, pat: string, b: string, rep: string)
    requires forall j: nat :: j < |a| ==> !OccursAt(a + pat + b, pat, j)
    requires forall i :: 0 <= i < |rep| ==> rep[i] != '$'
    ensures ReplaceFirst(a + pat + b, pat, rep) == a + rep + b
  {
    var s := a + pat + b;
    assert s[|a|..|a| + |pat|] == pat;
    assert OccursAt(s, pat, |a|);
    var r := IndexOf(s, pat);
    assert r == Some(|a|);
    SubstitutionLiteral(pat, s, |a|, rep);
    assert s[..|a|] == a;
    assert s[|a| + |pat|..] == b;
  }

  /** An occurrence can only start where the pattern's first character is. */
  lemma NoOccurrenceWithoutFirstChar(a: string, pat: string, b: string)
    requires pat != []
    requires forall i :: 0 <= i < |a| ==> a[i] != pat[0]
    ensures forall j: nat :: j < |a| ==> !OccursAt(a + pat + b, pat, j)
  {
    var s := a + pat + b;
    forall j: nat | j < |a| ensures !OccursAt(s, pat, j) {
      assert s[j..j + |pat|][0] == a[j];
    }
  }
}
