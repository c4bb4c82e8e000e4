/**
 * String primitives the localizer relies on: lower-casing of language codes
 * and the replace-all used for placeholder substitution.
 */
module Text {

  /** ASCII upper-case letter. */
  predicate IsUpper(c: char) {
    'A' <= c <= 'Z'
  }

  /** One character lower-cased; only ASCII letters change. */
  function LowerChar(c: char): (d: char)
    ensures !IsUpper(d)
    ensures IsUpper(c) || d == c
  {
    if IsUpper(c) then (c as int + 32) as char else c
  }

  /** A string with no upper-case letter. */
  predicate IsLower(s: string) {
    forall i :: 0 <= i < |s| ==> !IsUpper(s[i])
  }

  /** String lower-casing, character by character. */
  function ToLower(s: string): (r: string)
    ensures |r| == |s|
    ensures forall i :: 0 <= i < |s| ==> r[i] == LowerChar(s[i])
  {
    if s == [] then [] else [LowerChar(s[0])] + ToLower(s[1..])
  }

  /** A string is left alone by lower-casing exactly when it is already lower case. */
  lemma ToLowerFixesExactlyLower(s: string)
    ensures ToLower(s) == s <==> IsLower(s)
  {
  }

  /** Lower-casing twice is lower-casing once. */
  lemma ToLowerIdempotent(s: string)
    ensures ToLower(ToLower(s)) == ToLower(s)
  {
  }

  /** `p` occurs in `s` starting at index `j`. */
  predicate OccursAt(s: string, p: string, j: nat) {
    j + |p| <= |s| && s[j..j + |p|] == p
  }

  /** `p` occurs somewhere in `s`. */
  predicate Contains(s: string, p: string) {
    exists j: nat | j <= |s| - |p| :: OccursAt(s, p, j)
  }

  lemma PrefixOccursAtZero(s: string, p: string)
    ensures p <= s <==> OccursAt(s, p, 0)
  {
  }

  lemma OccursAtShift(s: string, p: string, k: nat, j: nat)
    requires k <= |s|
    ensures OccursAt(s[k..], p, j) <==> OccursAt(s, p, j + k)
  {
  }

  /**
   * Replace every occurrence of `pat` in `s` by the literal text `rep`,
   * scanning left to right and never re-examining inserted text: the
   * leftmost-first, non-overlapping matching of `String.prototype.replaceAll`
   * with a non-empty search string.
   */
  function ReplaceAll(s: string, pat: string, rep: string): string
    requires pat != []
    decreases |s|
  {
    if s == [] then []
    else if pat <= s then rep + ReplaceAll(s[|pat|..], pat, rep)
    else [s[0]] + ReplaceAll(s[1..], pat, rep)
  }

  /** A string in which the pattern never occurs comes back unchanged. */
  lemma {:induction false} ReplaceAllAbsent(s: string, pat: string, rep: string)
    requires pat != []
    requires !Contains(s, pat)
    ensures ReplaceAll(s, pat, rep) == s
    decreases |s|
  {
    if s != [] {
      PrefixOccursAtZero(s, pat);
      if Contains(s[1..], pat) {
        var j :| OccursAt(s[1..], pat, j);
        OccursAtShift(s, pat, 1, j);
      }
      ReplaceAllAbsent(s[1..], pat, rep);
    }
  }

  /** Replacing a pattern by itself changes nothing. */
  lemma {:induction false} ReplaceAllSelf(s: string, pat: string)
    requires pat != []
    ensures ReplaceAll(s, pat, pat) == s
    decreases |s|
  {
    if s != [] {
      if pat <= s {
        ReplaceAllSelf(s[|pat|..], pat);
        assert s == pat + s[|pat|..];
      } else {
        ReplaceAllSelf(s[1..], pat);
        assert s == [s[0]] + s[1..];
      }
    }
  }

  /**
   * A prefix `a` at none of whose positions the pattern starts is copied
   * through verbatim.
   */
  lemma {:induction false} ReplaceAllFreePrefix(a: string, b: string, pat: string, rep: string)
    requires pat != []
    requires forall j :: 0 <= j < |a| ==> !OccursAt(a + b, pat, j)
    ensures ReplaceAll(a + b, pat, rep) == a + ReplaceAll(b, pat, rep)
    decreases |a|
  {
    if a != [] {
      var s := a + b;
      PrefixOccursAtZero(s, pat);
      assert s[1..] == a[1..] + b;
      forall j | 0 <= j < |a[1..]| ensures !OccursAt(a[1..] + b, pat, j) {
        OccursAtShift(s, pat, 1, j);
      }
      assert !(pat <= s) by { assert !OccursAt(s, pat, 0); }
      assert ReplaceAll(s, pat, rep) == [s[0]] + ReplaceAll(a[1..] + b, pat, rep);
      ReplaceAllFreePrefix(a[1..], b, pat, rep);
      assert s[0] == a[0];
      assert [a[0]] + (a[1..] + ReplaceAll(b, pat, rep)) == a + ReplaceAll(b, pat, rep);
    } else {
      assert a + b == b;
    }
  }

  /**
   * Replacing in two pieces is replacing in the whole, as long as no
   * occurrence of the pattern straddles the seam between them.
   */
  lemma {:induction false} ReplaceAllSplit(a: string, c: string, pat: string, rep: string)
    requires pat != []
    requires forall j :: 0 <= j < |a| < j + |pat| ==> !OccursAt(a + c, pat, j)
    ensures ReplaceAll(a + c, pat, rep) == ReplaceAll(a, pat, rep) + ReplaceAll(c, pat, rep)
    decreases |a|
  {
    var s := a + c;
    if a == [] {
      assert s == c;
    } else if pat <= s {
      PrefixOccursAtZero(s, pat);
      assert |pat| <= |a|;
      assert pat <= a by { assert a[..|pat|] == s[..|pat|]; }
      var a' := a[|pat|..];
      assert s[|pat|..] == a' + c;
      forall j | 0 <= j < |a'| < j + |pat| ensures !OccursAt(a' + c, pat, j) {
        OccursAtShift(s, pat, |pat|, j);
      }
      ReplaceAllSplit(a', c, pat, rep);
    } else {
      assert !(pat <= a) by {
        if |pat| <= |a| { assert a[..|pat|] == s[..|pat|]; }
      }
      var a' := a[1..];
      assert s[1..] == a' + c;
      forall j | 0 <= j < |a'| < j + |pat| ensures !OccursAt(a' + c, pat, j) {
        OccursAtShift(s, pat, 1, j);
      }
      ReplaceAllSplit(a', c, pat, rep);
      assert s[0] == a[0];
    }
  }

  /**
   * Literal insertion: the first occurrence of the pattern, after a stretch
   * `a` in which it does not start, becomes exactly `rep`, and the scan goes
   * on after it.
   */
  lemma ReplaceAllFirstOccurrence(a: string, b: string, pat: string, rep: string)
    requires pat != []
    requires forall j :: 0 <= j < |a| ==> !OccursAt(a + pat + b, pat, j)
    ensures ReplaceAll(a + pat + b, pat, rep) == a + rep + ReplaceAll(b, pat, rep)
  {
    assert a + pat + b == a + (pat + b);
    ReplaceAllFreePrefix(a, pat + b, pat, rep);
    assert (pat + b)[|pat|..] == b;
  }

  /** Text without the pattern's first character is copied through. */
  lemma ReplaceAllWithoutFirstChar(s: string, pat: string, rep: string)
    requires pat != [] && pat[0] !in s
    ensures ReplaceAll(s, pat, rep) == s
  {
  }

  /** A stretch without the pattern's first character is copied through. */
  lemma ReplaceAllFreeStretch(a: string, b: string, pat: string, rep: string)
    requires pat != [] && pat[0] !in a
    ensures ReplaceAll(a + b, pat, rep) == a + ReplaceAll(b, pat, rep)
  {
    forall j | 0 <= j < |a| ensures !OccursAt(a + b, pat, j) {
      assert (a + b)[j] == a[j] && a[j] in a;
      if j + |pat| <= |a + b| {
        assert (a + b)[j..j + |pat|][0] == a[j];
      }
    }
    ReplaceAllFreePrefix(a, b, pat, rep);
  }

  /**
   * When the stretch before an occurrence lacks the pattern's first
   * character, that occurrence is the first one and becomes `rep`.
   */
  lemma ReplaceAllAfterFreeStretch(a: string, b: string, pat: string, rep: string)
    requires pat != [] && pat[0] !in a
    ensures ReplaceAll(a + pat + b, pat, rep) == a + rep + ReplaceAll(b, pat, rep)
  {
    forall j | 0 <= j < |a| ensures !OccursAt(a + pat + b, pat, j) {
      assert (a + pat + b)[j] == a[j] && a[j] in a;
      if j + |pat| <= |a + pat + b| {
        assert (a + pat + b)[j..j + |pat|][0] == a[j];
      }
    }
    ReplaceAllFirstOccurrence(a, b, pat, rep);
  }

  /**
   * The replacement text as `String.prototype.replaceAll` builds it when the
   * replacement is a string (ECMAScript GetSubstitution with no capture
   * groups): `$$` gives `$`, `$&` the matched text, `$` followed by a
   * backquote the text before the match, `$'` the text after it; every other
   * character, including a `$` that starts none of these, is copied.
   */
  function ExpandReplacement(rep: string, matched: string, before: string, after: string): string
    decreases |rep|
  {
    if rep == [] then []
    else if |rep| >= 2 && rep[0] == '$' && rep[1] == '$' then
      "$" + ExpandReplacement(rep[2..], matched, before, after)
    else if |rep| >= 2 && rep[0] == '$' && rep[1] == '&' then
      matched + ExpandReplacement(rep[2..], matched, before, after)
    else if |rep| >= 2 && rep[0] == '$' && rep[1] == '`' then
      before + ExpandReplacement(rep[2..], matched, before, after)
    else if |rep| >= 2 && rep[0] == '$' && rep[1] == '\'' then
      after + ExpandReplacement(rep[2..], matched, before, after)
    else
      [rep[0]] + ExpandReplacement(rep[1..], matched, before, after)
  }

  /** A replacement without `$` is inserted as it is. */
  lemma {:induction false} ExpandWithoutDollar(rep: string, matched: string, before: string, after: string)
    requires '$' !in rep
    ensures ExpandReplacement(rep, matched, before, after) == rep
    decreases |rep|
  {
    if rep != [] {
      assert rep[0] != '$';
      assert '$' !in rep[1..] by {
        forall k | 0 <= k < |rep[1..]| ensures rep[1..][k] != '$' {
          assert rep[1..][k] == rep[k + 1];
        }
      }
      ExpandWithoutDollar(rep[1..], matched, before, after);
      assert rep == [rep[0]] + rep[1..];
    }
  }

  /** The scan of `String.prototype.replaceAll(pat, rep)` from index `i` of `s`. */
  function ReplaceAllJsFrom(s: string, pat: string, rep: string, i: nat): string
    requires pat != [] && i <= |s|
    decreases |s| - i
  {
    if i == |s| then []
    else if pat <= s[i..] then
      ExpandReplacement(rep, pat, s[..i], s[i + |pat|..]) + ReplaceAllJsFrom(s, pat, rep, i + |pat|)
    else
      [s[i]] + ReplaceAllJsFrom(s, pat, rep, i + 1)
  }

  /** `s.replaceAll(pat, rep)` in JavaScript, with a string replacement. */
  function ReplaceAllJs(s: string, pat: string, rep: string): string
    requires pat != []
  {
    ReplaceAllJsFrom(s, pat, rep, 0)
  }

  /** Without `$` in the replacement, JavaScript's replace-all is the literal one. */
  lemma {:induction false} ReplaceAllJsFromLiteral(s: string, pat: string, rep: string, i: nat)
    requires pat != [] && i <= |s|
    requires '$' !in rep
    ensures ReplaceAllJsFrom(s, pat, rep, i) == ReplaceAll(s[i..], pat, rep)
    decreases |s| - i
  {
    if i < |s| {
      if pat <= s[i..] {
        ExpandWithoutDollar(rep, pat, s[..i], s[i + |pat|..]);
        ReplaceAllJsFromLiteral(s, pat, rep, i + |pat|);
        assert s[i..][|pat|..] == s[i + |pat|..];
      } else {
        ReplaceAllJsFromLiteral(s, pat, rep, i + 1);
        assert s[i..][1..] == s[i + 1..];
      }
    }
  }

  lemma ReplaceAllJsLiteral(s: string, pat: string, rep: string)
    requires pat != []
    requires '$' !in rep
    ensures ReplaceAllJs(s, pat, rep) == ReplaceAll(s, pat, rep)
  {
    ReplaceAllJsFromLiteral(s, pat, rep, 0);
    assert s[0..] == s;
  }
}
