/** What the recognition of `M dx + N dy = 0` in solver.py accepts, what it
    rejects, and how the two coefficients relate to the text. */
module DifferentialFacts {
  import opened Chars
  import opened Text
  import opened Rewrite
  import opened RewriteFacts
  import opened Differential

  // ------------------------------------------------------------- spaces

  /** Line 86 leaves no space, and changes nothing in a text without one. */
  lemma NoSpacesFacts(s: string)
    ensures ' ' !in NoSpaces(s)
    ensures ' ' !in s ==> NoSpaces(s) == s
  {
    ReplaceAllRemoves(' ', "", s, false);
    if ' ' !in s {
      Inert(Literal(" ", ""), s, false);
    }
  }

  // ------------------------------------------------------------- the right-hand side

  /** Lines 88-92 accept exactly a zero right-hand side after the first `=`. */
  lemma ZeroLeftSound(t: string, lhs: string)
    requires ZeroLeft(t) == Some(lhs)
    ensures ('=' !in t && t == lhs)
            || ('=' !in lhs && (t == lhs + "=0" || t == lhs + "=+0" || t == lhs + "=-0"))
  {
    ContainsChar(t, '=');
    match SplitOnce(t, "=")
    case None =>
    case Some((l, rhs)) =>
      ContainsChar(l, '=');
      assert t == l + "=" + rhs;
  }

  /** Lines 88-92 on `lhs = rhs`, `lhs` free of `=`. */
  lemma ZeroLeftOfEquation(lhs: string, rhs: string)
    requires '=' !in lhs
    ensures ZeroLeft(lhs + "=" + rhs) == if IsZero(rhs) then Some(lhs) else None
  {
    FirstOfOne(lhs, '=', rhs);
    SplitAtFirst(lhs, "=", rhs);
  }

  /** Lines 88-92 on a text without `=`: the whole text. */
  lemma ZeroLeftOfExpression(t: string)
    requires '=' !in t
    ensures ZeroLeft(t) == Some(t)
  {
    ContainsChar(t, '=');
  }

  // ------------------------------------------------------------- the left-hand side

  /** `dy` occurs once, at the end: lines 97-99 let the text through with the
      part before it. */
  lemma EndsInDy(left: string)
    requires !Contains(left, "dy")
    ensures SplitAll(left + "dy", "dy") == [left, ""]
  {
    FirstOfTwo(left, "dy", "");
    assert left + "dy" + "" == left + "dy";
    SplitAtFirst(left, "dy", "");
    assert SplitOnce("", "dy") == None;
  }

  /** Lines 94-110 recognise `M dx N dy` and return `M` and the signed `N`. */
  lemma SplitLeftRecognises(m: string, n: string)
    requires m != [] && n != []
    requires !Contains(m, "dx") && !Contains(m + "dx" + n, "dy")
    ensures SplitLeft(m + "dx" + n + "dy") == Some((m, Signed(n)))
  {
    var left := m + "dx" + n;
    var t := left + "dy";
    assert OccursAt(t, "dx", |m|);
    assert OccursAt(t, "dy", |left|);
    EndsInDy(left);
    FirstOfTwo(m, "dx", n);
    SplitAtFirst(m, "dx", n);
  }

  /** Whatever lines 94-110 accept is `M dx N dy` with `M` and `N` non-empty,
      `dx` first, `dy` only at the end, and the returned coefficient `N` with
      its sign (a `+` added when it had none). With `SplitLeftRecognises` this
      is an if-and-only-if. */
  lemma SplitLeftSound(t: string, m: string, n: string)
    requires SplitLeft(t) == Some((m, n))
    ensures m != [] && !Contains(m, "dx")
    ensures exists n0 :: n0 != [] && n == Signed(n0) && !Contains(m + "dx" + n0, "dy")
                         && t == m + "dx" + n0 + "dy"
  {
    var parts := SplitAll(t, "dy");
    var (before, after) := SplitOnce(t, "dy").value;
    assert parts == [before] + SplitAll(after, "dy");
    assert SplitOnce(after, "dy") == None;
    assert after == "";
    assert t == before + "dy";
    var (m0, n0) := SplitOnce(before, "dx").value;
    assert before == m0 + "dx" + n0;
    assert n0 != [] && n == Signed(n0) && !Contains(m + "dx" + n0, "dy") && t == m + "dx" + n0 + "dy";
  }

  // ------------------------------------------------------------- the whole recognition

  /** An accepted equation is, once its spaces are dropped, `M dx N dy`
      (`M` and `N` non-empty, `dx` first, `dy` only at the end), optionally
      followed by `=0`, `=+0` or `=-0`; the coefficients come back as `M` and
      the signed `N`. */
  lemma SplitSound(s: string, m: string, n: string)
    requires SplitDifferential(s) == Some((m, n))
    ensures m != [] && ' ' !in m && ' ' !in n && !Contains(m, "dx")
    ensures var lhs := ZeroLeft(NoSpaces(s)).value;
            (exists n0 :: n0 != [] && n == Signed(n0) && !Contains(m + "dx" + n0, "dy")
                          && lhs == m + "dx" + n0 + "dy")
            && (NoSpaces(s) == lhs || NoSpaces(s) == lhs + "=0" || NoSpaces(s) == lhs + "=+0" || NoSpaces(s) == lhs + "=-0")
  {
    var t := NoSpaces(s);
    var lhs := ZeroLeft(t).value;
    NoSpacesFacts(s);
    ZeroLeftSound(t, lhs);
    SplitLeftSound(lhs, m, n);
    var n0 :| n0 != [] && n == Signed(n0) && !Contains(m + "dx" + n0, "dy") && lhs == m + "dx" + n0 + "dy";
    assert t[..|lhs|] == lhs;
    SpaceFreeParts(t, lhs, m, n0);
    assert n == n0 || n == "+" + n0;
  }

  /** The parts of a prefix of a text without spaces have no spaces. */
  lemma SpaceFreeParts(t: string, lhs: string, m: string, n0: string)
    requires ' ' !in t && |lhs| <= |t| && t[..|lhs|] == lhs && lhs == m + "dx" + n0 + "dy"
    ensures ' ' !in m && ' ' !in n0
  {
    assert forall i :: 0 <= i < |m| ==> m[i] == t[i];
    assert forall i :: 0 <= i < |n0| ==> n0[i] == t[|m| + 2 + i];
  }

  /** `M dx N dy = 0` (no spaces, no `=` in `M` or `N`, `dx` first and `dy`
      only at the end) is recognised, with `M` and the signed `N`. */
  lemma SplitRecognisesEquation(m: string, n: string, zero: string)
    requires m != [] && n != [] && IsZero(zero)
    requires ' ' !in m + "dx" + n + "dy=" + zero && '=' !in m + n
    requires !Contains(m, "dx") && !Contains(m + "dx" + n, "dy")
    ensures SplitDifferential(m + "dx" + n + "dy=" + zero) == Some((m, Signed(n)))
  {
    var lhs := m + "dx" + n + "dy";
    assert m + "dx" + n + "dy=" + zero == lhs + "=" + zero;
    NoSpacesFacts(lhs + "=" + zero);
    assert forall c :: c in lhs ==> c in m + n || c in "dxy";
    ZeroLeftOfEquation(lhs, zero);
    SplitLeftRecognises(m, n);
  }

  /** `M dx N dy` alone, without `= 0`, is recognised too. */
  lemma SplitRecognisesExpression(m: string, n: string)
    requires m != [] && n != []
    requires ' ' !in m + "dx" + n + "dy" && '=' !in m + n
    requires !Contains(m, "dx") && !Contains(m + "dx" + n, "dy")
    ensures SplitDifferential(m + "dx" + n + "dy") == Some((m, Signed(n)))
  {
    var lhs := m + "dx" + n + "dy";
    NoSpacesFacts(lhs);
    assert forall c :: c in lhs ==> c in m + n || c in "dxy";
    ZeroLeftOfExpression(lhs);
    SplitLeftRecognises(m, n);
  }

  /** Line 91: a right-hand side other than `0`, `+0` or `-0` is rejected. */
  lemma SplitRejectsNonzero(lhs: string, rhs: string)
    requires ' ' !in lhs + "=" + rhs && '=' !in lhs && !IsZero(rhs)
    ensures SplitDifferential(lhs + "=" + rhs) == None
  {
    NoSpacesFacts(lhs + "=" + rhs);
    ZeroLeftOfEquation(lhs, rhs);
  }
}
