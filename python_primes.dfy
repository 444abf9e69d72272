/** Lines 78-79 of solver.py: `y` followed by primes becomes a SymPy
    derivative, and every remaining whole-word `y` not already called is
    applied to `x`. */
module PythonPrimes {
  import opened Chars
  import opened Text
  import opened Rewrite
  import opened RewriteFacts
  import opened PythonFormat

  // ------------------------------------------------------------- no `y'` is left

  /** No `y` is immediately followed by a prime. */
  predicate NoYPrime(s: string) {
    forall i :: 0 <= i && i + 1 < |s| && s[i] == 'y' ==> s[i + 1] != '\''
  }

  lemma NoYPrimeConcat(a: string, b: string)
    requires NoYPrime(a) && NoYPrime(b)
    requires a != [] && b != [] && a[|a| - 1] == 'y' ==> b[0] != '\''
    ensures NoYPrime(a + b)
  {
    var ab := a + b;
    forall i | 0 <= i && i + 1 < |ab| && ab[i] == 'y'
      ensures ab[i + 1] != '\''
    {
      if i + 1 < |a| {
        assert ab[i] == a[i] && ab[i + 1] == a[i + 1];
      } else if i + 1 == |a| {
        assert ab[i + 1] == b[0];
      } else {
        assert ab[i] == b[i - |a|] && ab[i + 1] == b[i + 1 - |a|];
      }
    }
  }

  lemma DerivativeShape(n: nat)
    requires n >= 1
    ensures Derivative(n) != [] && Derivative(n)[0] == 'd' && Derivative(n)[|Derivative(n)| - 1] == ')'
    ensures NoYPrime(Derivative(n)) && '\'' !in Derivative(n)
  {
    if n > 1 {
      var d := NatToString(n);
      var r := "diff(y(x),x," + d + ")";
      forall i | 12 <= i < |r| - 1
        ensures r[i] == d[i - 12]
      {
      }
    }
  }

  /** Line 78 consumes the whole run of primes: `y` followed by exactly `n`
      primes becomes `Derivative(n)`. */
  lemma {:induction false} PrimesReplaced(n: nat, primes: string, t: string, pw: bool)
    requires n >= 1 && |primes| == n && forall i :: 0 <= i < n ==> primes[i] == '\''
    requires t == [] || t[0] != '\''
    ensures ReplaceAll(YPrimes, "y" + primes + t, pw) == Derivative(n) + ReplaceAll(YPrimes, t, false)
  {
    var m := "y" + primes;
    var s := m + t;
    assert s[1..] == primes + t;
    assert Span(s[1..], Prime) == n by {
      var u := s[1..];
      assert forall i :: 0 <= i < n ==> InClass(u[i], Prime);
      if n < |u| {
        assert u[n] == t[0];
      }
    }
    assert s[..1 + n] == m;
    MatchPrefix(YPrimes, m, t, pw);
  }

  /** What line 78 leaves first: the input's first character, or the `d` of a
      derivative. */
  lemma PrimesFirst(t: string, pw: bool)
    requires t != []
    ensures ReplaceAll(YPrimes, t, pw) != []
    ensures ReplaceAll(YPrimes, t, pw)[0] == '\'' ==> t[0] == '\''
  {
    var k := MatchLen(YPrimes, t, pw);
    if k > 0 {
      DerivativeShape(k - 1);
    }
  }

  /** The first piece line 78 emits: a derivative, or one character that is
      not a `y` before a prime. */
  lemma PrimesPiece(s: string, pw: bool)
    requires s != []
    ensures NoYPrime(Piece(YPrimes, s, pw))
    ensures var q := Piece(YPrimes, s, pw);
            q != [] && (q[|q| - 1] == 'y' ==> RewriteFacts.Step(YPrimes, s, pw) == 1 && (|s| == 1 || s[1] != '\''))
  {
    var k := MatchLen(YPrimes, s, pw);
    if k > 0 {
      DerivativeShape(k - 1);
      assert Piece(YPrimes, s, pw) == Derivative(k - 1);
    } else if |s| > 1 && s[0] == 'y' {
      assert Span(s[1..], Prime) == 0;
    }
  }

  /** After line 78 no `y` is followed by a prime. */
  lemma {:induction false} PrimesCleared(s: string, pw: bool)
    ensures NoYPrime(ReplaceAll(YPrimes, s, pw))
    decreases |s|
  {
    if s != [] {
      var p := YPrimes;
      var step := RewriteFacts.Step(p, s, pw);
      var rest := s[step..];
      var tail := ReplaceAll(p, rest, IsWordChar(s[step - 1]));
      ReplaceAllStep(p, s, pw);
      PrimesCleared(rest, IsWordChar(s[step - 1]));
      PrimesPiece(s, pw);
      if rest != [] {
        PrimesFirst(rest, IsWordChar(s[step - 1]));
      }
      NoYPrimeConcat(Piece(p, s, pw), tail);
    }
  }

  /** Line 79 writes `y(x)`, never `y'`, and copies every other character, so
      it keeps the text free of `y'`. */
  lemma {:induction false} BareYKeepsNoYPrime(s: string, pw: bool)
    requires NoYPrime(s)
    ensures NoYPrime(ReplaceAll(BareY, s, pw))
    decreases |s|
  {
    if s != [] {
      var p := BareY;
      var step := RewriteFacts.Step(p, s, pw);
      var rest := s[step..];
      var tail := ReplaceAll(p, rest, IsWordChar(s[step - 1]));
      ReplaceAllStep(p, s, pw);
      assert NoYPrime(rest);
      BareYKeepsNoYPrime(rest, IsWordChar(s[step - 1]));
      if rest != [] {
        BareYFirst(rest, IsWordChar(s[step - 1]));
      }
      NoYPrimeConcat(Piece(p, s, pw), tail);
    }
  }

  /** Line 79 keeps the first character: a match begins with the `y` it wraps. */
  lemma BareYFirst(t: string, pw: bool)
    requires t != []
    ensures ReplaceAll(BareY, t, pw) != [] && ReplaceAll(BareY, t, pw)[0] == t[0]
  {
  }

  /** Lines 76-80: no `y'` survives the normalisation. */
  lemma NormalizarNoYPrime(cadena: string)
    ensures NoYPrime(NormalizarPrimasSympy(cadena))
  {
    var s := InsertarMultImplicitaParaDxdy(PreNormalizarAscii(cadena));
    PrimesCleared(s, false);
    BareYKeepsNoYPrime(Sub(YPrimes, s), false);
  }

  // ------------------------------------------------------------- every whole-word `y` is called

  /** `y` at `i` is a whole word (`\by\b`); `pw` tells whether a word
      character precedes the text. */
  predicate WholeY(s: string, i: nat, pw: bool)
    requires i < |s|
  {
    s[i] == 'y' && (if i == 0 then !pw else !IsWordChar(s[i - 1])) && AtWordEnd(s, i + 1)
  }

  /** Every whole-word `y` is followed, after optional whitespace, by `(`. */
  predicate EveryYCalled(s: string, pw: bool) {
    forall i :: 0 <= i < |s| && WholeY(s, i, pw) ==> ParenAhead(s[i + 1..])
  }

  /** `Span` is the one length with the class before it and not at it. */
  lemma SpanIs(u: string, k: nat, cls: CharClass)
    requires k < |u| && !InClass(u[k], cls)
    requires forall i :: 0 <= i < k ==> InClass(u[i], cls)
    ensures Span(u, cls) == k
  {
  }

  /** Line 79 leaves an opening parenthesis ahead where there was one. */
  lemma ParenKept(t: string, pw: bool)
    requires ParenAhead(t)
    ensures ParenAhead(ReplaceAll(BareY, t, pw))
  {
    var k := Span(t, PySpace);
    var a, b := t[..k + 1], t[k + 1..];
    assert t == a + b;
    assert forall i :: 0 <= i < |a| ==> a[i] == '(' || IsPySpace(a[i]);
    InertPrefix(BareY, a, b, pw);
    var u := a + ReplaceAll(BareY, b, After(a, pw));
    assert u[k] == '(';
    SpanIs(u, k, PySpace);
  }

  /** Whole-word `y`s past a prefix `a` are those of `b`, when `b` does not
      begin with a `y` whose preceding word character `pwb` misreports. */
  lemma CalledPastPrefix(a: string, b: string, pwa: bool, pwb: bool)
    requires EveryYCalled(b, pwb) && a != []
    requires b == [] || b[0] != 'y' || IsWordChar(a[|a| - 1]) == pwb
    ensures forall i :: |a| <= i < |a + b| && WholeY(a + b, i, pwa) ==> ParenAhead((a + b)[i + 1..])
  {
    var ab := a + b;
    forall i | |a| <= i < |ab| && WholeY(ab, i, pwa)
      ensures ParenAhead(ab[i + 1..])
    {
      var j := i - |a|;
      assert ab[i + 1..] == b[j + 1..];
      assert ab[i] == b[j];
      if j > 0 {
        assert ab[i - 1] == b[j - 1];
      }
      assert WholeY(b, j, pwb);
    }
  }

  /** After line 79 every whole-word `y` is called: the bare ones it wrapped
      as `y(x)`, and the ones it left because `\s*\(` followed. */
  lemma {:induction false} BareYCalls(s: string, pw: bool)
    ensures EveryYCalled(ReplaceAll(BareY, s, pw), pw)
    decreases |s|
  {
    if s != [] {
      var p := BareY;
      var k := MatchLen(p, s, pw);
      var step := RewriteFacts.Step(p, s, pw);
      var q := Piece(p, s, pw);
      var rest := s[step..];
      var pw' := IsWordChar(s[step - 1]);
      var tail := ReplaceAll(p, rest, pw');
      var r := q + tail;
      ReplaceAllStep(p, s, pw);
      BareYCalls(rest, pw');
      if rest != [] {
        BareYFirst(rest, pw');
      }
      if k > 0 {
        assert q == "y(x)";
        if rest != [] {
          assert !IsWordChar(s[1]) && rest[0] == s[1];
        }
        CalledPastPrefix(q, tail, pw, pw');
        assert r[1..] == "(x)" + tail;
        assert Span(r[1..], PySpace) == 0;
        assert ParenAhead(r[1..]);
      } else {
        assert q == [s[0]] && rest == s[1..];
        CalledPastPrefix(q, tail, pw, pw');
        assert r[1..] == tail;
        if s[0] == 'y' && !pw && rest != [] {
          if IsWordChar(s[1]) {
            assert !AtWordEnd(r, 1);
          } else {
            assert ParenAhead(s[1..]);
            ParenKept(rest, pw');
          }
        }
      }
    }
  }

  /** Lines 76-80: in the normalised text every whole-word `y` is called, so
      SymPy never sees the bare function `y`. */
  lemma NormalizarCallsY(cadena: string)
    ensures EveryYCalled(NormalizarPrimasSympy(cadena), false)
  {
    var s := InsertarMultImplicitaParaDxdy(PreNormalizarAscii(cadena));
    BareYCalls(Sub(YPrimes, s), false);
  }
}
