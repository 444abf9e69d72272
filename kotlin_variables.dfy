/** How `aFormatoParaPython` (MainActivity.kt) leaves the unknown function and
    the variable: every `y` applied to `(x)` (lines 141-143) and an explicit
    `*` between a digit and `x` or `y(x)` (lines 144-145). */
module KotlinVariables {
  import opened Chars
  import opened Text
  import opened Rewrite
  import opened RewriteFacts
  import opened Pipeline
  import opened KotlinFormat
  import opened KotlinFacts

  /** Every `y` is followed by `(x)`. */
  predicate YApplied(s: string) {
    forall i :: 0 <= i < |s| && s[i] == 'y' ==> i + 3 < |s| && s[i + 1] == '(' && s[i + 2] == 'x' && s[i + 3] == ')'
  }

  lemma YAppliedConcat(a: string, b: string)
    requires YApplied(a) && YApplied(b)
    ensures YApplied(a + b)
  {
    var ab := a + b;
    forall i | 0 <= i < |ab| && ab[i] == 'y'
      ensures i + 3 < |ab| && ab[i + 1] == '(' && ab[i + 2] == 'x' && ab[i + 3] == ')'
    {
      if i < |a| {
        assert a[i] == 'y';
      } else {
        assert b[i - |a|] == 'y';
      }
    }
  }

  lemma YAppliedSuffix(s: string, k: nat)
    requires YApplied(s) && k <= |s|
    ensures YApplied(s[k..])
  {
    var t := s[k..];
    forall i | 0 <= i < |t| && t[i] == 'y'
      ensures i + 3 < |t| && t[i + 1] == '(' && t[i + 2] == 'x' && t[i + 3] == ')'
    {
      assert s[k + i] == 'y';
    }
  }

  lemma YAppliedChar(c: char)
    requires c != 'y'
    ensures YApplied([c])
  {
  }

  /** Line 142: every `y` becomes `y(x)`, so afterwards every `y` is applied. */
  lemma {:induction false} WrapEveryY(s: string, pw: bool)
    ensures YApplied(ReplaceAll(Literal("y", "y(x)"), s, pw))
    decreases |s|
  {
    if s != [] {
      var p := Literal("y", "y(x)");
      var step := RewriteFacts.Step(p, s, pw);
      ReplaceAllStep(p, s, pw);
      WrapEveryY(s[step..], IsWordChar(s[step - 1]));
      if MatchLen(p, s, pw) == 0 {
        YAppliedChar(s[0]);
      }
      YAppliedConcat(Piece(p, s, pw), ReplaceAll(p, s[step..], IsWordChar(s[step - 1])));
    }
  }

  /** The patterns of lines 143-148 that run after every `y` is applied. */
  predicate KeepsApplied(p: Pattern) {
    p == Literal(Placeholder, "y(x)") || p == DigitX || p == DigitYOfX || p == XYOfX || p == XSpacedYOfX || p == SpaceRun
  }

  lemma InertChunk(p: Pattern, t: string, pw: bool)
    requires !CanStart(p, 'y') && !CanStart(p, '(') && !CanStart(p, 'x') && !CanStart(p, ')')
    ensures ReplaceAll(p, "y(x)" + t, pw) == "y(x)" + ReplaceAll(p, t, false)
  {
    InertPrefix(p, "y(x)", t, pw);
  }

  /** `x` followed by `)` starts no match of lines 146-147. */
  lemma ClosedXNoMatch(p: Pattern, u: string, pw: bool)
    requires p == XYOfX || p == XSpacedYOfX
    requires |u| >= 2 && u[0] == 'x' && u[1] == ')'
    ensures MatchLen(p, u, pw) == 0
  {
    if p == XSpacedYOfX {
      assert Span(u[1..], JavaSpace) == 0;
      assert u[1..][0] == ')';
    } else {
      assert u[1] != "xy(x)"[1];
    }
  }

  /** The scan copies `y(x)` one character at a time: none of them starts a
      match of `p` there. */
  lemma CopiedChunk(p: Pattern, s: string, pw: bool)
    requires |s| >= 4 && s[..4] == "y(x)"
    requires MatchLen(p, s, pw) == 0 && MatchLen(p, s[1..], true) == 0
    requires MatchLen(p, s[2..], false) == 0 && MatchLen(p, s[3..], true) == 0
    ensures ReplaceAll(p, s, pw) == "y(x)" + ReplaceAll(p, s[4..], false)
  {
    var s1, s2, s3, s4 := s[1..], s[2..], s[3..], s[4..];
    assert s[0] == 'y' && s1[0] == '(' && s2[0] == 'x' && s3[0] == ')';
    assert s1[1..] == s2 && s2[1..] == s3 && s3[1..] == s4;
    var r4 := ReplaceAll(p, s4, false);
    CopyStep(p, s3, true);
    var r3 := ReplaceAll(p, s3, true);
    assert r3 == ")" + r4;
    CopyStep(p, s2, false);
    var r2 := ReplaceAll(p, s2, false);
    assert r2 == "x" + r3;
    CopyStep(p, s1, true);
    var r1 := ReplaceAll(p, s1, true);
    assert r1 == "(" + r2;
    CopyStep(p, s, pw);
    assert ReplaceAll(p, s, pw) == "y" + r1;
  }

  lemma ClosedXChunk(p: Pattern, t: string, pw: bool)
    requires p == XYOfX || p == XSpacedYOfX
    ensures ReplaceAll(p, "y(x)" + t, pw) == "y(x)" + ReplaceAll(p, t, false)
  {
    var s := "y(x)" + t;
    assert s[..4] == "y(x)" && s[4..] == t;
    NoMatch(p, s, pw);
    NoMatch(p, s[1..], true);
    ClosedXNoMatch(p, s[2..], false);
    NoMatch(p, s[3..], true);
    CopiedChunk(p, s, pw);
  }

  /** Such a pattern copies an applied `y(x)` unchanged. */
  lemma AppliedChunk(p: Pattern, t: string, pw: bool)
    requires KeepsApplied(p)
    ensures ReplaceAll(p, "y(x)" + t, pw) == "y(x)" + ReplaceAll(p, t, false)
  {
    if p == XYOfX || p == XSpacedYOfX {
      ClosedXChunk(p, t, pw);
    } else {
      InertChunk(p, t, pw);
    }
  }

  /** The replacement of every match of such a pattern is itself applied. */
  lemma DigitXApplied(s: string, pw: bool)
    requires MatchLen(DigitX, s, pw) > 0
    ensures YApplied(Substitute(DigitX, s[..MatchLen(DigitX, s, pw)]))
  {
    var m := s[..MatchLen(DigitX, s, pw)];
    assert m[1..] == "x" && m[0] != 'y';
    assert Substitute(DigitX, m) == [m[0], '*', 'x'];
  }

  lemma DigitYOfXApplied(s: string, pw: bool)
    requires MatchLen(DigitYOfX, s, pw) > 0
    ensures YApplied(Substitute(DigitYOfX, s[..MatchLen(DigitYOfX, s, pw)]))
  {
    var m := s[..MatchLen(DigitYOfX, s, pw)];
    assert m[1..] == "y(x)" && m[0] != 'y';
    assert Substitute(DigitYOfX, m) == [m[0], '*'] + "y(x)";
    YAppliedConcat([m[0], '*'], "y(x)");
  }

  lemma AppliedPiece(p: Pattern, s: string, pw: bool)
    requires KeepsApplied(p) && s != [] && s[0] != 'y'
    ensures YApplied(Piece(p, s, pw))
  {
    if MatchLen(p, s, pw) == 0 {
      PieceCopy(p, s, pw);
      YAppliedChar(s[0]);
    } else {
      PieceMatch(p, s, pw);
      if p == DigitX {
        DigitXApplied(s, pw);
      } else if p == DigitYOfX {
        DigitYOfXApplied(s, pw);
      } else {
        var m := s[..MatchLen(p, s, pw)];
        assert Substitute(p, m) in {" ", "y(x)", "x*y(x)"};
      }
    }
  }

  /** Lines 143-148 keep every `y` applied. */
  lemma {:induction false} KeepApplied(p: Pattern, s: string, pw: bool)
    requires KeepsApplied(p) && YApplied(s)
    ensures YApplied(ReplaceAll(p, s, pw))
    decreases |s|
  {
    if s == [] {
    } else if s[0] == 'y' {
      var t := s[4..];
      assert s == "y(x)" + t;
      AppliedChunk(p, t, pw);
      YAppliedSuffix(s, 4);
      KeepApplied(p, t, false);
      YAppliedConcat("y(x)", ReplaceAll(p, t, false));
    } else {
      var step := RewriteFacts.Step(p, s, pw);
      ReplaceAllStep(p, s, pw);
      AppliedPiece(p, s, pw);
      YAppliedSuffix(s, step);
      KeepApplied(p, s[step..], IsWordChar(s[step - 1]));
      YAppliedConcat(Piece(p, s, pw), ReplaceAll(p, s[step..], IsWordChar(s[step - 1])));
    }
  }

  /** A character that is not whitespace, after the leading whitespace, survives trimming. */
  lemma KeptByTrim(s: string, k: nat)
    requires Span(s, KotlinWhitespace) <= k < |s| && !IsKotlinWhitespace(s[k])
    ensures k < Span(s, KotlinWhitespace) + |Trim(s)|
  {
  }

  /** Trimming keeps every `y` applied: the `)` after it is not whitespace. */
  lemma TrimKeepsApplied(s: string)
    requires YApplied(s)
    ensures YApplied(Trim(s))
  {
    var r := Trim(s);
    var a := Span(s, KotlinWhitespace);
    forall i | 0 <= i < |r| && r[i] == 'y'
      ensures i + 3 < |r| && r[i + 1] == '(' && r[i + 2] == 'x' && r[i + 3] == ')'
    {
      assert s[a + i] == 'y';
      KeptByTrim(s, a + i + 3);
    }
  }

  lemma WrapYUnfold(s: string)
    ensures Run(WrapY, s) == Sub(Literal(Placeholder, "y(x)"), Sub(Literal("y", "y(x)"), Sub(Literal("y(x)", Placeholder), s)))
  {
    var s1 := Sub(Literal("y(x)", Placeholder), s);
    var s2 := Sub(Literal("y", "y(x)"), s1);
    assert Run(WrapY, s) == Run(WrapY[1..], s1);
    assert Run(WrapY[1..], s1) == Run(WrapY[1..][1..], s2);
    assert WrapY[1..][1..][1..] == [];
  }

  lemma ProductsUnfold(s: string)
    ensures Run(Products, s) == Sub(XSpacedYOfX, Sub(XYOfX, Sub(DigitYOfX, Sub(DigitX, s))))
  {
    assert Products[1..][1..][1..][1..] == [];
  }

  /** Lines 141-143 apply every `y`, whatever they start from. */
  lemma WrapYApplied(b: string)
    ensures YApplied(Run(WrapY, b))
  {
    WrapYUnfold(b);
    var w1 := Sub(Literal("y", "y(x)"), Sub(Literal("y(x)", Placeholder), b));
    WrapEveryY(Sub(Literal("y(x)", Placeholder), b), false);
    KeepApplied(Literal(Placeholder, "y(x)"), w1, false);
  }

  /** Lines 141-148 leave every `y` applied to `(x)`, whatever they start from. */
  lemma BackApplied(b: string)
    ensures YApplied(Run(FinalTidy, Run(Products, Run(WrapY, b))))
  {
    WrapYApplied(b);
    var w := Run(WrapY, b);
    ProductsUnfold(w);
    KeepApplied(DigitX, w, false);
    KeepApplied(DigitYOfX, Sub(DigitX, w), false);
    KeepApplied(XYOfX, Sub(DigitYOfX, Sub(DigitX, w)), false);
    KeepApplied(XSpacedYOfX, Sub(XYOfX, Sub(DigitYOfX, Sub(DigitX, w))), false);
    var q := Run(Products, w);
    FinalTidyUnfold(q);
    KeepApplied(SpaceRun, q, false);
    TrimKeepsApplied(Sub(SpaceRun, q));
  }

  /** Lines 141-143: in the converted text every `y` is followed by `(x)`. */
  lemma FormatApplied(expr: string)
    ensures YApplied(AFormatoParaPython(expr))
  {
    BackApplied(RewriteDifferentials(Front(expr)));
  }

  /** No digit is immediately followed by `c`. */
  predicate NoDigitThen(s: string, c: char) {
    forall i :: 0 <= i && i + 1 < |s| && IsAsciiDigit(s[i]) ==> s[i + 1] != c
  }

  lemma NoDigitThenConcat(a: string, b: string, c: char)
    requires NoDigitThen(a, c) && NoDigitThen(b, c)
    requires a != [] && b != [] && IsAsciiDigit(a[|a| - 1]) ==> b[0] != c
    ensures NoDigitThen(a + b, c)
  {
    var ab := a + b;
    forall i | 0 <= i && i + 1 < |ab| && IsAsciiDigit(ab[i])
      ensures ab[i + 1] != c
    {
      if i + 1 < |a| {
        assert ab[i] == a[i] && ab[i + 1] == a[i + 1];
      } else if i + 1 == |a| {
        assert ab[i + 1] == b[0];
      } else {
        assert ab[i] == b[i - |a|] && ab[i + 1] == b[i + 1 - |a|];
      }
    }
  }

  lemma NoDigitThenSlice(s: string, lo: nat, hi: nat, c: char)
    requires lo <= hi <= |s| && NoDigitThen(s, c)
    ensures NoDigitThen(s[lo..hi], c)
  {
    var t := s[lo..hi];
    forall i | 0 <= i && i + 1 < |t| && IsAsciiDigit(t[i])
      ensures t[i + 1] != c
    {
      assert t[i] == s[lo + i] && t[i + 1] == s[lo + i + 1];
    }
  }

  /** Two characters alike as far as digits, `x` and `y` are concerned. */
  predicate SameKind(a: char, b: char) {
    (IsAsciiDigit(a) <==> IsAsciiDigit(b)) && (a == 'x' <==> b == 'x') && (a == 'y' <==> b == 'y')
  }

  /** The patterns of lines 144-148. */
  predicate ProductPattern(p: Pattern) {
    p == DigitX || p == DigitYOfX || p == XYOfX || p == XSpacedYOfX || p == SpaceRun
  }

  /** A replacement of lines 144-148 begins like the text it replaces. */
  lemma PieceFirst(p: Pattern, s: string, pw: bool)
    requires ProductPattern(p) && s != []
    ensures Piece(p, s, pw) != [] && SameKind(Piece(p, s, pw)[0], s[0])
  {
  }

  /** A replacement of lines 144-148 ends in neither a digit nor a digit pair. */
  lemma PieceInside(p: Pattern, s: string, pw: bool)
    requires ProductPattern(p) && s != [] && MatchLen(p, s, pw) > 0
    ensures var q := Piece(p, s, pw); q != [] && !IsAsciiDigit(q[|q| - 1])
    ensures NoDigitThen(Piece(p, s, pw), 'x') && NoDigitThen(Piece(p, s, pw), 'y')
  {
  }

  /** The first character keeps its kind through lines 144-148. */
  lemma FirstKept(p: Pattern, s: string, pw: bool)
    requires ProductPattern(p) && s != []
    ensures ReplaceAll(p, s, pw) != [] && SameKind(ReplaceAll(p, s, pw)[0], s[0])
  {
    ReplaceAllStep(p, s, pw);
    PieceFirst(p, s, pw);
  }

  /** What makes a copied digit safe before the next character: the text has
      no such pair already, or this is the step that separates it. */
  predicate Separated(p: Pattern, s: string, c: char) {
    NoDigitThen(s, c) || (p == DigitX && c == 'x') || (p == DigitYOfX && c == 'y' && YApplied(s))
  }

  /** A digit the scan copies is not followed by `c`. */
  lemma CopiedDigit(p: Pattern, s: string, pw: bool, c: char)
    requires ProductPattern(p) && Separated(p, s, c)
    requires |s| >= 2 && MatchLen(p, s, pw) == 0 && IsAsciiDigit(s[0])
    ensures s[1] != c
  {
    if p == DigitYOfX && YApplied(s) && |s| >= 5 {
      assert s[1] == 'y' ==> s[1..5] == "y(x)";
    }
  }

  lemma SeparatedSuffix(p: Pattern, s: string, c: char, k: nat)
    requires Separated(p, s, c) && k <= |s|
    ensures Separated(p, s[k..], c)
  {
    if NoDigitThen(s, c) {
      NoDigitThenSlice(s, k, |s|, c);
    } else if YApplied(s) {
      YAppliedSuffix(s, k);
    }
  }

  /** Lines 144-148 leave no digit before `c`: the step that separates it
      establishes it and every later step keeps it. */
  lemma {:induction false} ProductsSeparate(p: Pattern, s: string, pw: bool, c: char)
    requires ProductPattern(p) && (c == 'x' || c == 'y') && Separated(p, s, c)
    ensures NoDigitThen(ReplaceAll(p, s, pw), c)
    decreases |s|
  {
    if s != [] {
      var step := RewriteFacts.Step(p, s, pw);
      var q := Piece(p, s, pw);
      var rest := s[step..];
      var tail := ReplaceAll(p, rest, IsWordChar(s[step - 1]));
      ReplaceAllStep(p, s, pw);
      SeparatedSuffix(p, s, c, step);
      ProductsSeparate(p, rest, IsWordChar(s[step - 1]), c);
      if MatchLen(p, s, pw) > 0 {
        PieceInside(p, s, pw);
      } else {
        assert q == [s[0]] && rest == s[1..];
        if rest != [] && IsAsciiDigit(s[0]) {
          CopiedDigit(p, s, pw, c);
          FirstKept(p, rest, IsWordChar(s[step - 1]));
        }
      }
      NoDigitThenConcat(q, tail, c);
    }
  }

  lemma TrimKeepsNoDigitThen(s: string, c: char)
    requires NoDigitThen(s, c)
    ensures NoDigitThen(Trim(s), c)
  {
    var a := Span(s, KotlinWhitespace);
    NoDigitThenSlice(s, a, a + |Trim(s)|, c);
  }

  /** Lines 144-148 separate every digit from a following `x` or `y(x)`, given
      that every `y` is already applied. */
  lemma BackSeparated(w: string)
    requires YApplied(w)
    ensures NoDigitThen(Run(FinalTidy, Run(Products, w)), 'x')
    ensures NoDigitThen(Run(FinalTidy, Run(Products, w)), 'y')
  {
    ProductsUnfold(w);
    var w1 := Sub(DigitX, w);
    var w2 := Sub(DigitYOfX, w1);
    var w3 := Sub(XYOfX, w2);
    var q := Run(Products, w);
    KeepApplied(DigitX, w, false);
    ProductsSeparate(DigitX, w, false, 'x');
    ProductsSeparate(DigitYOfX, w1, false, 'x');
    ProductsSeparate(DigitYOfX, w1, false, 'y');
    ProductsSeparate(XYOfX, w2, false, 'x');
    ProductsSeparate(XYOfX, w2, false, 'y');
    ProductsSeparate(XSpacedYOfX, w3, false, 'x');
    ProductsSeparate(XSpacedYOfX, w3, false, 'y');
    FinalTidyUnfold(q);
    ProductsSeparate(SpaceRun, q, false, 'x');
    ProductsSeparate(SpaceRun, q, false, 'y');
    TrimKeepsNoDigitThen(Sub(SpaceRun, q), 'x');
    TrimKeepsNoDigitThen(Sub(SpaceRun, q), 'y');
  }

  /** Lines 144-145: in the converted text no digit is immediately followed by
      `x` or by `y` (which is always `y(x)`), so `2x` and `3y` reach the solver
      as `2*x` and `3*y(x)`. */
  lemma FormatSeparatesDigits(expr: string)
    ensures NoDigitThen(AFormatoParaPython(expr), 'x')
    ensures NoDigitThen(AFormatoParaPython(expr), 'y')
  {
    var b := RewriteDifferentials(Front(expr));
    WrapYApplied(b);
    BackSeparated(Run(WrapY, b));
  }
}
