/** What `aFormatoParaPython` (MainActivity.kt) guarantees about the text it
    hands to the solver. */
module KotlinFacts {
  import opened Chars
  import opened Text
  import opened Rewrite
  import opened RewriteFacts
  import opened Pipeline
  import opened KotlinFormat

  /** The typographic characters lines 125-127 fold to ASCII. The right single
      quotation mark is not among them: line 125 replaces the apostrophe by itself. */
  const KotlinFolded: set<char> :=
    {'\U{2032}', '\U{2035}', '\U{2212}', '\U{2013}', '\U{2014}', '\U{B7}', '\U{22C5}', '\U{D7}'}

  /** The characters of the derivative notation `*diff(y(x),x,2)` and the space. */
  const Notation: set<char> := {'*', ' ', 'd', 'i', 'f', '(', 'y', 'x', ')', ',', '2'}

  /** The characters the routine itself writes: those of its replacement texts
      and of the placeholder. */
  const Written: set<char> := Notation + {'\'', '-', 'Y', 'F', 'U', 'N', 'C', '_', 'T', 'M', 'P'}

  lemma TrimChars(s: string)
    ensures CharsOf(Trim(s)) <= CharsOf(s)
  {
    StepChars(TrimSpace, s);
  }

  lemma PrimesChars(s: string)
    ensures CharsOf(Run(FoldPrimes, s)) <= CharsOf(s) + {'\''}
    ensures '\U{2032}' !in Run(FoldPrimes, s) && '\U{2035}' !in Run(FoldPrimes, s)
  {
    assert RunIntroduced(FoldPrimes) == {'\''};
    RunChars(FoldPrimes, s);
    assert Removes(FoldPrimes, '\U{2032}') && Removes(FoldPrimes, '\U{2035}');
    RunRemoves(FoldPrimes, s, '\U{2032}');
    RunRemoves(FoldPrimes, s, '\U{2035}');
  }

  lemma DashesChars(s: string)
    ensures CharsOf(Run(FoldDashes, s)) <= CharsOf(s) + {'-'}
    ensures '\U{2212}' !in Run(FoldDashes, s) && '\U{2013}' !in Run(FoldDashes, s) && '\U{2014}' !in Run(FoldDashes, s)
  {
    assert RunIntroduced(FoldDashes) == {'-'};
    RunChars(FoldDashes, s);
    assert Removes(FoldDashes, '\U{2212}') && Removes(FoldDashes, '\U{2013}') && Removes(FoldDashes, '\U{2014}');
    RunRemoves(FoldDashes, s, '\U{2212}');
    RunRemoves(FoldDashes, s, '\U{2013}');
    RunRemoves(FoldDashes, s, '\U{2014}');
  }

  lemma TimesChars(s: string)
    ensures CharsOf(Run(FoldTimes, s)) <= CharsOf(s) + {'*'}
    ensures '\U{B7}' !in Run(FoldTimes, s) && '\U{22C5}' !in Run(FoldTimes, s) && '\U{D7}' !in Run(FoldTimes, s)
  {
    assert RunIntroduced(FoldTimes) == {'*'};
    RunChars(FoldTimes, s);
    assert Removes(FoldTimes, '\U{B7}') && Removes(FoldTimes, '\U{22C5}') && Removes(FoldTimes, '\U{D7}');
    RunRemoves(FoldTimes, s, '\U{B7}');
    RunRemoves(FoldTimes, s, '\U{22C5}');
    RunRemoves(FoldTimes, s, '\U{D7}');
  }

  lemma TidyChars(s: string)
    ensures CharsOf(Run(TidySpaces, s)) <= CharsOf(s) + {' '}
  {
    assert RunIntroduced(TidySpaces) == {' '};
    RunChars(TidySpaces, s);
  }

  /** A literal replacement writes only the characters of its replacement. */
  lemma LiteralWithin(pat: string, rep: string, w: set<char>)
    requires forall i :: 0 <= i < |rep| ==> rep[i] in w
    ensures Introduced(Literal(pat, rep)) <= w
  {
    forall c | c in Introduced(Literal(pat, rep))
      ensures c in w
    {
      var i :| 0 <= i < |rep| && rep[i] == c;
    }
  }

  lemma DerivativesWrite()
    ensures RunIntroduced(Derivatives) <= Notation
  {
    LiteralWithin("^", "**", Notation);
    LiteralWithin("y''", "diff(y(x),x,2)", Notation);
    LiteralWithin("y'", "diff(y(x),x)", Notation);
    RunIntroducedWithin(Derivatives, Notation);
  }

  lemma DerivativesChars(s: string)
    ensures CharsOf(Run(Derivatives, s)) <= CharsOf(s) + Notation
    ensures '^' !in Run(Derivatives, s)
  {
    DerivativesWrite();
    RunChars(Derivatives, s);
    assert Removes(Derivatives, '^');
    RunRemoves(Derivatives, s, '^');
  }

  /** The set reasoning behind `FoldChars`. */
  lemma FoldSets(a: set<char>, b: set<char>, c: set<char>, d: set<char>)
    requires b <= a + {'\''} && '\U{2032}' !in b && '\U{2035}' !in b
    requires c <= b + {'-'} && '\U{2212}' !in c && '\U{2013}' !in c && '\U{2014}' !in c
    requires d <= c + {'*'} && '\U{B7}' !in d && '\U{22C5}' !in d && '\U{D7}' !in d
    ensures d !! KotlinFolded && d <= a + {'\'', '-', '*'}
  {
  }

  /** Lines 125-128: no typographic character is left. */
  lemma FoldChars(t0: string)
    ensures CharsOf(Run(FoldTimes, Run(FoldDashes, Run(FoldPrimes, t0)))) !! KotlinFolded
    ensures CharsOf(Run(FoldTimes, Run(FoldDashes, Run(FoldPrimes, t0)))) <= CharsOf(t0) + {'\'', '-', '*'}
  {
    var t1 := Run(FoldPrimes, t0);
    var t2 := Run(FoldDashes, t1);
    var t3 := Run(FoldTimes, t2);
    PrimesChars(t0);
    DashesChars(t1);
    TimesChars(t2);
    FoldSets(CharsOf(t0), CharsOf(t1), CharsOf(t2), CharsOf(t3));
  }

  /** The set reasoning behind `FrontChars`. */
  lemma FrontSets(e: set<char>, a: set<char>, d: set<char>, f: set<char>, g: set<char>)
    requires a <= e && d !! KotlinFolded && d <= a + {'\'', '-', '*'}
    requires f <= d + {' '} && g <= f + Notation && '^' !in g
    ensures g !! KotlinFolded + {'^'} && g <= e + Written
  {
  }

  /** Lines 124-133 leave no typographic character and no `^`. */
  lemma FrontChars(expr: string)
    ensures CharsOf(Front(expr)) !! KotlinFolded + {'^'}
    ensures CharsOf(Front(expr)) <= CharsOf(expr) + Written
  {
    var t0 := Trim(expr);
    var t3 := Run(FoldTimes, Run(FoldDashes, Run(FoldPrimes, t0)));
    var t4 := Run(TidySpaces, t3);
    var t5 := Run(Derivatives, t4);
    TrimChars(expr);
    FoldChars(t0);
    TidyChars(t3);
    DerivativesChars(t4);
    FrontSets(CharsOf(expr), CharsOf(t0), CharsOf(t3), CharsOf(t4), CharsOf(t5));
  }

  lemma DifferentialsWrite()
    ensures RunIntroduced(Differentials) <= Notation
  {
    LiteralWithin("dy", "*diff(y(x),x)", Notation);
    LiteralWithin("dx", "", Notation);
    RunIntroducedWithin(Differentials, Notation);
  }

  lemma DifferentialsChars(s: string)
    ensures CharsOf(RewriteDifferentials(s)) <= CharsOf(s) + Notation
  {
    DifferentialsWrite();
    RunChars(Differentials, s);
  }

  lemma WrapYWrites()
    ensures RunIntroduced(WrapY) <= Written
  {
    forall c | c in Placeholder
      ensures c in Written
    {
      var i :| 0 <= i < |Placeholder| && Placeholder[i] == c;
      assert i in {0, 1, 2, 3, 4, 5, 6, 7, 8};
    }
    assert Introduced(Literal("y(x)", Placeholder)) <= Written;
    assert Introduced(Literal("y", "y(x)")) <= Written;
    assert Introduced(Literal(Placeholder, "y(x)")) <= Written;
    assert WrapY[1..][1..][1..] == [];
    assert RunIntroduced(WrapY[1..][1..]) == Introduced(Literal(Placeholder, "y(x)"));
    assert RunIntroduced(WrapY[1..]) == Introduced(Literal("y", "y(x)")) + RunIntroduced(WrapY[1..][1..]);
  }

  lemma WrapYChars(s: string)
    ensures CharsOf(Run(WrapY, s)) <= CharsOf(s) + Written
  {
    WrapYWrites();
    RunChars(WrapY, s);
  }

  lemma ProductsChars(s: string)
    ensures CharsOf(Run(FinalTidy, Run(Products, s))) <= CharsOf(s) + {'*', ' '}
  {
    assert RunIntroduced(Products) == {'*'};
    assert RunIntroduced(FinalTidy) == {' '};
    RunChars(Products, s);
    RunChars(FinalTidy, Run(Products, s));
  }

  /** The alphabet the routine writes holds the notation, `*` and the space,
      and none of the characters it removes. */
  lemma WrittenHolds()
    ensures Notation <= Written && {'*', ' '} <= Written && Written !! KotlinFolded + {'^'}
  {
  }

  /** The set reasoning behind `FormatChars`. */
  lemma BackSets(e: set<char>, a: set<char>, b: set<char>, c: set<char>, d: set<char>,
                 n: set<char>, w: set<char>, t: set<char>)
    requires n <= w && {'*', ' '} <= w && w !! t
    requires a !! t && a <= e + w
    requires b <= a + n && c <= b + w && d <= c + {'*', ' '}
    ensures d !! t && d <= e + w
  {
  }

  /** The text handed to the solver holds none of the typographic characters
      the keypad may produce and no `^`; every other character was typed or is
      one the routine writes itself. */
  lemma FormatChars(expr: string)
    ensures CharsOf(AFormatoParaPython(expr)) !! KotlinFolded + {'^'}
    ensures CharsOf(AFormatoParaPython(expr)) <= CharsOf(expr) + Written
  {
    var a := Front(expr);
    var b := RewriteDifferentials(a);
    var c := Run(WrapY, b);
    var d := Run(FinalTidy, Run(Products, c));
    FrontChars(expr);
    DifferentialsChars(a);
    WrapYChars(b);
    ProductsChars(c);
    WrittenHolds();
    BackSets(CharsOf(expr), CharsOf(a), CharsOf(b), CharsOf(c), CharsOf(d), Notation, Written, KotlinFolded + {'^'});
  }

  // ------------------------------------------------------------- equations

  /** Every step of a group keeps the number of `=`. */
  predicate KeepsEquals(steps: seq<Step>) {
    forall i :: 0 <= i < |steps| ==> StepCountNeutral(steps[i], '=')
  }

  lemma FoldsKeepEquals()
    ensures KeepsEquals(FoldPrimes) && KeepsEquals(FoldDashes) && KeepsEquals(FoldTimes)
  {
  }

  lemma SpacingKeepsEquals()
    ensures KeepsEquals(TidySpaces) && KeepsEquals(Products) && KeepsEquals(FinalTidy)
  {
  }

  lemma DerivativesKeepEquals()
    ensures KeepsEquals(Derivatives) && KeepsEquals(Differentials)
  {
  }

  lemma WrapYKeepsEquals()
    ensures KeepsEquals(WrapY)
  {
  }

  lemma GroupsKeepEquals()
    ensures KeepsEquals(FoldPrimes) && KeepsEquals(FoldDashes) && KeepsEquals(FoldTimes)
    ensures KeepsEquals(TidySpaces) && KeepsEquals(Derivatives) && KeepsEquals(Differentials)
    ensures KeepsEquals(WrapY) && KeepsEquals(Products) && KeepsEquals(FinalTidy)
  {
    FoldsKeepEquals();
    SpacingKeepsEquals();
    DerivativesKeepEquals();
    WrapYKeepsEquals();
  }

  /** The routine keeps every `=` the user typed and adds none: the equation
      sign survives all the rewriting, including the removal of the spaces
      around it (line 129). */
  lemma FormatKeepsEquals(expr: string)
    ensures Occurrences(AFormatoParaPython(expr), '=') == Occurrences(expr, '=')
  {
    GroupsKeepEquals();
    var t0 := Trim(expr);
    var t1 := Run(FoldPrimes, t0);
    var t2 := Run(FoldDashes, t1);
    var t3 := Run(FoldTimes, t2);
    var t4 := Run(TidySpaces, t3);
    var a := Run(Derivatives, t4);
    var b := RewriteDifferentials(a);
    var c := Run(WrapY, b);
    TrimCount(expr, '=');
    RunCount(FoldPrimes, t0, '=');
    RunCount(FoldDashes, t1, '=');
    RunCount(FoldTimes, t2, '=');
    RunCount(TidySpaces, t3, '=');
    RunCount(Derivatives, t4, '=');
    RunCount(Differentials, a, '=');
    RunCount(WrapY, b, '=');
    RunCount(Products, c, '=');
    RunCount(FinalTidy, Run(Products, c), '=');
  }

  // ------------------------------------------------------------- spacing

  /** Every `\s` character is a plain space, and no two of them are adjacent. */
  predicate SingleSpaced(s: string) {
    forall i :: 0 <= i < |s| && IsJavaSpace(s[i]) ==> s[i] == ' ' && (i + 1 < |s| ==> !IsJavaSpace(s[i + 1]))
  }

  lemma SingleSpacedConcat(a: string, b: string)
    requires SingleSpaced(a) && SingleSpaced(b)
    requires a != [] && b != [] && IsJavaSpace(a[|a| - 1]) ==> !IsJavaSpace(b[0])
    ensures SingleSpaced(a + b)
  {
    var ab := a + b;
    forall i | 0 <= i < |ab| && IsJavaSpace(ab[i])
      ensures ab[i] == ' ' && (i + 1 < |ab| ==> !IsJavaSpace(ab[i + 1]))
    {
      if i < |a| {
        assert ab[i] == a[i];
        if i + 1 < |a| {
          assert ab[i + 1] == a[i + 1];
        } else if i + 1 < |ab| {
          assert ab[i + 1] == b[0];
        }
      } else {
        assert ab[i] == b[i - |a|];
        if i + 1 < |ab| {
          assert ab[i + 1] == b[i + 1 - |a|];
        }
      }
    }
  }

  /** Line 130's `\s+` to one space leaves single spaces only, and keeps
      whether the text starts with whitespace. */
  lemma {:induction false} SpaceRunSingleSpaced(s: string, pw: bool)
    ensures SingleSpaced(ReplaceAll(SpaceRun, s, pw))
    ensures s != [] ==>
      ReplaceAll(SpaceRun, s, pw) != [] && (IsJavaSpace(ReplaceAll(SpaceRun, s, pw)[0]) <==> IsJavaSpace(s[0]))
    decreases |s|
  {
    if s != [] {
      var k := MatchLen(SpaceRun, s, pw);
      if k == 0 {
        assert !IsJavaSpace(s[0]);
        SpaceRunSingleSpaced(s[1..], IsWordChar(s[0]));
        SingleSpacedConcat([s[0]], ReplaceAll(SpaceRun, s[1..], IsWordChar(s[0])));
      } else {
        var rest := s[k..];
        SpaceRunSingleSpaced(rest, IsWordChar(s[k - 1]));
        assert rest != [] ==> !IsJavaSpace(rest[0]);
        SingleSpacedConcat(" ", ReplaceAll(SpaceRun, rest, IsWordChar(s[k - 1])));
      }
    }
  }

  /** A slice of a single-spaced text is single-spaced. */
  lemma SingleSpacedSlice(s: string, a: nat, b: nat)
    requires SingleSpaced(s) && a <= b <= |s|
    ensures SingleSpaced(s[a..b])
  {
    var t := s[a..b];
    forall i | 0 <= i < |t| && IsJavaSpace(t[i])
      ensures t[i] == ' ' && (i + 1 < |t| ==> !IsJavaSpace(t[i + 1]))
    {
      assert t[i] == s[a + i];
      if i + 1 < |t| {
        assert t[i + 1] == s[a + i + 1];
      }
    }
  }

  lemma FinalTidyUnfold(s: string)
    ensures Run(FinalTidy, s) == Trim(Sub(SpaceRun, s))
  {
    assert FinalTidy[1..][1..] == [];
  }

  /** Line 148 leaves the text trimmed and single-spaced. */
  lemma FinalTidySpacing(c: string)
    ensures SingleSpaced(Run(FinalTidy, c))
    ensures var out := Run(FinalTidy, c);
      out != [] ==> !IsKotlinWhitespace(out[0]) && !IsKotlinWhitespace(out[|out| - 1])
  {
    var r := Sub(SpaceRun, c);
    FinalTidyUnfold(c);
    SpaceRunSingleSpaced(c, false);
    var a := Span(r, KotlinWhitespace);
    SingleSpacedSlice(r, a, a + |Trim(r)|);
  }

  /** The text handed to the solver is trimmed and single-spaced: no
      whitespace at either end, every `\s` character a plain space, and no two
      spaces in a row. */
  lemma FormatSpacing(expr: string)
    ensures SingleSpaced(AFormatoParaPython(expr))
    ensures var out := AFormatoParaPython(expr);
      out != [] ==> !IsKotlinWhitespace(out[0]) && !IsKotlinWhitespace(out[|out| - 1])
  {
    FinalTidySpacing(Run(Products, Run(WrapY, RewriteDifferentials(Front(expr)))));
  }

  // ------------------------------------------------------------- derivatives

  /** Line 132. */
  const SecondPrime: Pattern := Literal("y''", "diff(y(x),x,2)")

  /** Line 133. */
  const FirstPrime: Pattern := Literal("y'", "diff(y(x),x)")

  /** Lines 132-133 in their order: `y''` first, then `y'`. */
  function PrimesToDiff(s: string): string {
    Sub(FirstPrime, Sub(SecondPrime, s))
  }

  lemma DerivativesArePrimesToDiff(s: string)
    ensures Run(Derivatives, s) == PrimesToDiff(Sub(Literal("^", "**"), s))
  {
    var s1 := Sub(Literal("^", "**"), s);
    assert Derivatives[1..][1..][1..] == [];
    assert Run(Derivatives, s) == Run(Derivatives[1..], s1);
    assert Run(Derivatives[1..], s1) == Run(Derivatives[1..][1..], Sub(SecondPrime, s1));
  }

  /** A `y` followed by something other than a prime, between texts without
      `y` that end in non-word characters, is left alone by line 133. */
  lemma YWithoutPrimeKept(a: string, rest: string, u: string)
    requires forall i :: 0 <= i < |a| ==> a[i] != 'y'
    requires forall i :: 0 <= i < |rest| ==> rest[i] != 'y'
    requires a != [] && rest != [] && rest[0] != '\''
    requires !IsWordChar(a[|a| - 1]) && !IsWordChar(rest[|rest| - 1])
    ensures ReplaceAll(FirstPrime, a + (['y'] + rest) + u, false) == a + (['y'] + rest) + ReplaceAll(FirstPrime, u, false)
  {
    var w := ['y'] + (rest + u);
    assert a + (['y'] + rest) + u == a + w;
    InertPrefix(FirstPrime, a, w, false);
    assert MatchLen(FirstPrime, w, false) == 0 by {
      assert w[1] == rest[0];
    }
    CopyStep(FirstPrime, w, false);
    assert w[1..] == rest + u;
    InertPrefix(FirstPrime, rest, u, true);
  }

  /** The derivative text written by line 132 or 133 is left alone by line
      133: its `y` is followed by `(`, not by a prime. */
  lemma DiffTextKept(d: string, u: string)
    requires d == "diff(y(x),x,2)" || d == "diff(y(x),x)"
    ensures ReplaceAll(FirstPrime, d + u, false) == d + ReplaceAll(FirstPrime, u, false)
  {
    var rest := if d == "diff(y(x),x)" then "(x),x)" else "(x),x,2)";
    assert d == "diff(" + (['y'] + rest);
    YWithoutPrimeKept("diff(", rest, u);
  }

  /** Lines 132-133 turn `y''` into the second derivative as a whole: the
      later `y'` rewrite does not split it into a first derivative and a
      stray prime. */
  lemma SecondDerivative(t: string)
    ensures PrimesToDiff("y''" + t) == "diff(y(x),x,2)" + PrimesToDiff(t)
  {
    assert "y''" <= "y''" + t;
    MatchPrefix(SecondPrime, "y''", t, false);
    DiffTextKept("diff(y(x),x,2)", Sub(SecondPrime, t));
  }

  /** Line 132 leaves a `y` followed by a single prime alone. */
  lemma SinglePrimeCopied(s: string)
    requires |s| >= 2 && s[0] == 'y' && s[1] == '\'' && (|s| == 2 || s[2] != '\'')
    ensures ReplaceAll(SecondPrime, s, false) == s[..2] + ReplaceAll(SecondPrime, s[2..], false)
  {
    var s1 := s[1..];
    assert s1[0] == '\'' && s1[1..] == s[2..];
    assert MatchLen(SecondPrime, s, false) == 0 by {
      if |s| >= 3 {
        assert s[2] != "y''"[2];
      }
    }
    CopyStep(SecondPrime, s, false);
    NoMatch(SecondPrime, s1, true);
    CopyStep(SecondPrime, s1, true);
    var r := ReplaceAll(SecondPrime, s[2..], false);
    assert [s[0]] + ([s1[0]] + r) == s[..2] + r;
  }

  lemma SinglePrimeKept(t: string)
    requires t == [] || t[0] != '\''
    ensures ReplaceAll(SecondPrime, "y'" + t, false) == "y'" + ReplaceAll(SecondPrime, t, false)
  {
    var s := "y'" + t;
    assert s[..2] == "y'" && s[2..] == t;
    SinglePrimeCopied(s);
  }

  /** A `y'` not followed by a further prime becomes the first derivative. */
  lemma FirstDerivative(t: string)
    requires t == [] || t[0] != '\''
    ensures PrimesToDiff("y'" + t) == "diff(y(x),x)" + PrimesToDiff(t)
  {
    var u := Sub(SecondPrime, t);
    SinglePrimeKept(t);
    assert "y'" <= "y'" + u;
    MatchPrefix(FirstPrime, "y'", u, false);
    DiffTextKept("diff(y(x),x)", u);
  }

  /** Line 131. */
  const Caret: Pattern := Literal("^", "**")

  /** Line 131 keeps a text that does not start with a prime from starting
      with one. */
  lemma CaretKeepsHead(t: string)
    requires t == [] || t[0] != '\''
    ensures var u := Sub(Caret, t); u == [] || u[0] != '\''
  {
    if t != [] {
      if t[0] == '^' {
        assert t == "^" + t[1..];
        MatchPrefix(Caret, "^", t[1..], false);
      } else {
        NoMatch(Caret, t, false);
        CopyStep(Caret, t, false);
      }
    }
  }

  /** Lines 131-133 turn a leading `y''` into the second derivative and
      convert the rest of the text on its own. */
  lemma RunSecondDerivative(t: string)
    ensures Run(Derivatives, "y''" + t) == "diff(y(x),x,2)" + Run(Derivatives, t)
  {
    DerivativesArePrimesToDiff("y''" + t);
    DerivativesArePrimesToDiff(t);
    InertPrefix(Caret, "y''", t, false);
    assert After("y''", false) == false;
    SecondDerivative(Sub(Caret, t));
  }

  /** Lines 131-133 turn a leading `y'` not followed by a further prime into
      the first derivative and convert the rest of the text on its own. */
  lemma RunFirstDerivative(t: string)
    requires t == [] || t[0] != '\''
    ensures Run(Derivatives, "y'" + t) == "diff(y(x),x)" + Run(Derivatives, t)
  {
    DerivativesArePrimesToDiff("y'" + t);
    DerivativesArePrimesToDiff(t);
    InertPrefix(Caret, "y'", t, false);
    assert After("y'", false) == false;
    CaretKeepsHead(t);
    FirstDerivative(Sub(Caret, t));
  }
}
