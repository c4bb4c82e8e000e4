/**
 * Placeholder tokens `[[i]]` and their positional substitution.
 */
module Placeholders {
  import opened Text

  predicate IsDigit(c: char) {
    '0' <= c <= '9'
  }

  function Digit(d: nat): (c: char)
    requires d < 10
    ensures IsDigit(c)
  {
    ('0' as int + d) as char
  }

  /**
   * Decimal notation of a natural number, as a JavaScript template writes
   * `${i}`: digits only, with no leading zero.
   */
  function Decimal(n: nat): (s: string)
    ensures |s| > 0
    ensures forall m :: 0 <= m < |s| ==> IsDigit(s[m])
    ensures s[0] == '0' <==> n == 0
    decreases n
  {
    if n < 10 then [Digit(n)] else Decimal(n / 10) + [Digit(n % 10)]
  }

  /** The number a string of decimal digits denotes. */
  function DecimalValue(s: string): nat
    requires forall m :: 0 <= m < |s| ==> IsDigit(s[m])
  {
    if s == [] then 0
    else
      assert IsDigit(s[|s| - 1]);
      DecimalValue(s[..|s| - 1]) * 10 + (s[|s| - 1] as int - '0' as int)
  }

  /** Reading the decimal notation back gives the number. */
  lemma {:induction false} DecimalRoundTrip(n: nat)
    ensures DecimalValue(Decimal(n)) == n
    decreases n
  {
    var s := Decimal(n);
    if n >= 10 {
      DecimalRoundTrip(n / 10);
      assert s[..|s| - 1] == Decimal(n / 10);
    }
  }

  /** Distinct numbers have distinct decimal notations. */
  lemma DecimalInjective(i: nat, k: nat)
    ensures Decimal(i) == Decimal(k) <==> i == k
  {
    DecimalRoundTrip(i);
    DecimalRoundTrip(k);
  }

  /**
   * The placeholder token `[[i]]`: two opening brackets, the digits of `i`,
   * two closing brackets, and no other bracket.
   */
  function Token(i: nat): (t: string)
    ensures |t| == |Decimal(i)| + 4
    ensures t[0] == '[' && t[1] == '[' && t[|t| - 2] == ']' && t[|t| - 1] == ']'
    ensures forall m :: 2 <= m < |t| - 2 ==> IsDigit(t[m])
    ensures forall m :: 2 <= m < |t| ==> t[m] != '['
  {
    "[[" + Decimal(i) + "]]"
  }

  /**
   * A token occurs inside another only as the whole of it: the brackets
   * cannot line up anywhere else, and the digits between them must agree.
   */
  lemma TokenOccursOnlyInItself(i: nat, k: nat, j: nat)
    requires OccursAt(Token(k), Token(i), j)
    ensures j == 0 && i == k
  {
    var t, u := Token(k), Token(i);
    var di, dk := Decimal(i), Decimal(k);
    assert |t| == |dk| + 4 && |u| == |di| + 4;
    assert t[j + 1] == u[1] == '[' by {
      assert t[j..j + |u|][1] == t[j + 1];
    }
    assert forall m :: 2 <= m < |t| ==> t[m] != '[' by {
      forall m | 2 <= m < |t| ensures t[m] != '[' {
        if m < |dk| + 2 { assert t[m] == dk[m - 2]; }
      }
    }
    assert j == 0;
    assert t[|di| + 2] == ']' by {
      assert t[..|u|][|di| + 2] == u[|di| + 2];
    }
    assert forall m :: 2 <= m < |dk| + 2 ==> IsDigit(t[m]) by {
      forall m | 2 <= m < |dk| + 2 ensures IsDigit(t[m]) { assert t[m] == dk[m - 2]; }
    }
    assert |di| >= |dk|;
    assert di == dk by {
      assert t[..|u|] == u;
      assert di == u[2..|di| + 2];
      assert dk == t[2..|dk| + 2];
    }
    DecimalInjective(i, k);
  }

  /** Token `[[i]]` appears in token `[[k]]` exactly when `i == k`. */
  lemma TokenContainsIff(i: nat, k: nat)
    ensures Contains(Token(k), Token(i)) <==> i == k
  {
    if Contains(Token(k), Token(i)) {
      var j: nat :| j <= |Token(k)| - |Token(i)| && OccursAt(Token(k), Token(i), j);
      TokenOccursOnlyInItself(i, k, j);
    }
    if i == k {
      assert OccursAt(Token(k), Token(i), 0);
    }
  }

  /**
   * The first `n` substitution passes, in ascending order: pass `i`
   * replaces every `[[i]]` in the text so far by `ps[i]`.
   */
  function Substitute(t: string, ps: seq<string>, n: nat): string
    requires n <= |ps|
  {
    if n == 0 then t else ReplaceAll(Substitute(t, ps, n - 1), Token(n - 1), ps[n - 1])
  }

  /** All substitution passes, one per placeholder. */
  function Fill(t: string, ps: seq<string>): string {
    Substitute(t, ps, |ps|)
  }

  /** The same passes made with JavaScript's `replaceAll` and a string replacement. */
  function SubstituteJs(t: string, ps: seq<string>, n: nat): string
    requires n <= |ps|
  {
    if n == 0 then t else ReplaceAllJs(SubstituteJs(t, ps, n - 1), Token(n - 1), ps[n - 1])
  }

  function FillJs(t: string, ps: seq<string>): string {
    SubstituteJs(t, ps, |ps|)
  }

  /** With no placeholders the text is returned as it is. */
  lemma FillNoPlaceholders(t: string)
    ensures Fill(t, []) == t
  {
  }

  /** Text holding none of the first `n` tokens survives the first `n` passes unchanged. */
  lemma {:induction false} SubstituteUntouched(t: string, ps: seq<string>, n: nat)
    requires n <= |ps|
    requires forall i :: 0 <= i < n ==> !Contains(t, Token(i))
    ensures Substitute(t, ps, n) == t
  {
    if n > 0 {
      SubstituteUntouched(t, ps, n - 1);
      ReplaceAllAbsent(t, Token(n - 1), ps[n - 1]);
    }
  }

  /**
   * No occurrence of `[[i]]` starts in `x` and reaches into a token that
   * follows it: it would need a bracket at its index 2 or more.
   */
  lemma NoOccurrenceIntoToken(x: string, y: string, i: nat, k: nat, j: nat)
    requires j < |x| < j + |Token(i)|
    ensures !OccursAt(x + (Token(k) + y), Token(i), j)
  {
    var ti, tk := Token(i), Token(k);
    var s := x + (tk + y);
    var q := if |x| - j == 1 then 2 else |x| - j;
    assert s[|x|] == tk[0] && s[|x| + 1] == tk[1];
    assert ti[q] != '[' && s[j + q] == '[';
    if j + |ti| <= |s| {
      assert s[j..j + |ti|][q] == s[j + q];
    }
  }

  /**
   * No occurrence of `[[i]]` starts inside a token `[[k]]` and reaches past
   * its end: the brackets would not line up.
   */
  lemma NoOccurrenceOutOfToken(y: string, i: nat, k: nat, j: nat)
    requires j < |Token(k)| < j + |Token(i)|
    ensures !OccursAt(Token(k) + y, Token(i), j)
  {
    var ti, tk := Token(i), Token(k);
    var u := tk + y;
    var q := if j == 0 then |tk| - 2 else if j == 1 then 1 else 0;
    if j == 0 {
      assert IsDigit(ti[q]) && u[q] == ']';
    } else {
      assert ti[q] == '[' && u[j + q] == tk[j + q] != '[';
    }
    if j + |ti| <= |u| {
      assert u[j..j + |ti|][q] == u[j + q];
    }
  }

  /**
   * A pass over `[[i]]` leaves a different token `[[k]]` in place and works
   * on the text on either side of it as if the token were not there: no
   * occurrence of `[[i]]` overlaps `[[k]]`.
   */
  lemma TokenPassAround(x: string, y: string, i: nat, k: nat, rep: string)
    requires i != k
    ensures ReplaceAll(x + Token(k) + y, Token(i), rep) ==
            ReplaceAll(x, Token(i), rep) + Token(k) + ReplaceAll(y, Token(i), rep)
  {
    var ti, tk := Token(i), Token(k);
    var u := tk + y;
    forall j | 0 <= j < |x| < j + |ti| ensures !OccursAt(x + u, ti, j) {
      NoOccurrenceIntoToken(x, y, i, k, j);
    }
    ReplaceAllSplit(x, u, ti, rep);
    forall j | 0 <= j < |tk| < j + |ti| ensures !OccursAt(u, ti, j) {
      NoOccurrenceOutOfToken(y, i, k, j);
    }
    ReplaceAllSplit(tk, y, ti, rep);
    TokenContainsIff(i, k);
    ReplaceAllAbsent(tk, ti, rep);
    assert x + tk + y == x + u;
  }

  /** The first `n` passes leave a token `[[k]]` with `k >= n` in place and work around it. */
  lemma {:induction false} SubstituteAroundToken(a: string, b: string, k: nat, ps: seq<string>, n: nat)
    requires n <= |ps| && n <= k
    ensures Substitute(a + Token(k) + b, ps, n) == Substitute(a, ps, n) + Token(k) + Substitute(b, ps, n)
  {
    if n > 0 {
      SubstituteAroundToken(a, b, k, ps, n - 1);
      TokenPassAround(Substitute(a, ps, n - 1), Substitute(b, ps, n - 1), n - 1, k, ps[n - 1]);
    }
  }

  /**
   * A token whose index has no placeholder is left in the text literally,
   * and the text on either side of it is filled as if it were not there.
   */
  lemma TokenBeyondPlaceholdersKept(a: string, b: string, k: nat, ps: seq<string>)
    requires k >= |ps|
    ensures Fill(a + Token(k) + b, ps) == Fill(a, ps) + Token(k) + Fill(b, ps)
  {
    SubstituteAroundToken(a, b, k, ps, |ps|);
  }

  /** When no placeholder holds a `$`, the JavaScript passes are the literal ones. */
  lemma {:induction false} SubstituteJsLiteral(t: string, ps: seq<string>, n: nat)
    requires n <= |ps|
    requires forall i :: 0 <= i < n ==> '$' !in ps[i]
    ensures SubstituteJs(t, ps, n) == Substitute(t, ps, n)
  {
    if n > 0 {
      SubstituteJsLiteral(t, ps, n - 1);
      ReplaceAllJsLiteral(Substitute(t, ps, n - 1), Token(n - 1), ps[n - 1]);
    }
  }

  lemma FillJsLiteral(t: string, ps: seq<string>)
    requires forall i :: 0 <= i < |ps| ==> '$' !in ps[i]
    ensures FillJs(t, ps) == Fill(t, ps)
  {
    SubstituteJsLiteral(t, ps, |ps|);
  }

  /** One placeholder: a single pass over `[[0]]`. */
  lemma FillSingle(t: string, v: string)
    ensures Fill(t, [v]) == ReplaceAll(t, Token(0), v)
  {
    var ps := [v];
    assert Substitute(t, ps, 1) == ReplaceAll(Substitute(t, ps, 0), Token(0), ps[0]);
  }

  /** Two placeholders: the pass over `[[0]]`, then the pass over `[[1]]`. */
  lemma FillPair(t: string, v: string, w: string)
    ensures Fill(t, [v, w]) == ReplaceAll(ReplaceAll(t, Token(0), v), Token(1), w)
  {
    var ps := [v, w];
    assert Substitute(t, ps, 1) == ReplaceAll(Substitute(t, ps, 0), Token(0), ps[0]);
    assert Substitute(t, ps, 2) == ReplaceAll(Substitute(t, ps, 1), Token(1), ps[1]);
  }

  /** Every occurrence of a token is replaced, not only the first. */
  lemma FillEveryOccurrence(a: string, b: string, c: string, v: string)
    requires '[' !in a && '[' !in b && '[' !in c
    ensures Fill(a + Token(0) + b + Token(0) + c, [v]) == a + v + b + v + c
  {
    var p := Token(0);
    ReplaceAllWithoutFirstChar(c, p, v);
    ReplaceAllAfterFreeStretch(b, c, p, v);
    assert a + p + b + p + c == a + p + (b + p + c);
    ReplaceAllAfterFreeStretch(a, b + p + c, p, v);
    FillSingle(a + p + b + p + c, v);
  }

  /** A token with no matching placeholder stays, the others are filled. */
  lemma FillLeavesUnmatchedToken(a: string, b: string, v: string)
    requires '[' !in a && '[' !in b
    ensures Fill(a + Token(0) + b + Token(1), [v]) == a + v + b + Token(1)
  {
    var p := Token(0);
    TokenContainsIff(0, 1);
    ReplaceAllAbsent(Token(1), p, v);
    ReplaceAllFreeStretch(b, Token(1), p, v);
    assert a + p + b + Token(1) == a + p + (b + Token(1));
    ReplaceAllAfterFreeStretch(a, b + Token(1), p, v);
    FillSingle(a + p + b + Token(1), v);
  }

  /**
   * Passes run in ascending order on the text so far: a later token brought
   * in by an earlier placeholder is filled, an earlier one brought in by a
   * later placeholder is not.
   */
  lemma FillChains(v: string)
    ensures Fill(Token(0), [Token(1), v]) == v
    ensures Fill(Token(1), [v, Token(0)]) == Token(0)
  {
    var p0, p1 := Token(0), Token(1);
    assert p0 == [] + p0 + [] && p1 == [] + p1 + [];
    ReplaceAllAfterFreeStretch([], [], p0, p1);
    ReplaceAllAfterFreeStretch([], [], p1, v);
    TokenContainsIff(0, 1);
    ReplaceAllAbsent(p1, p0, v);
    ReplaceAllAfterFreeStretch([], [], p1, p0);
    FillPair(p0, p1, v);
    FillPair(p1, v, p0);
  }

  /**
   * JavaScript reads `$` patterns in a placeholder value: `$$` collapses to
   * `$` and `$&` re-inserts the token, where the literal passes insert the
   * value as it is.
   */
  lemma FillJsReadsDollarPatterns()
    ensures FillJs(Token(0), ["$$"]) == "$"
    ensures Fill(Token(0), ["$$"]) == "$$"
    ensures FillJs(Token(0), ["$&"]) == Token(0)
  {
  }
}
