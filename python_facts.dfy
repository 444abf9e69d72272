/** What the normalisers of solver.py guarantee. */
module PythonFacts {
  import opened Chars
  import opened Text
  import opened Rewrite
  import opened RewriteFacts
  import opened Pipeline
  import opened PythonFormat

  // ------------------------------------------------------------- _es_latex

  /** Line 33: the substring test `"\\" in cadena` holds exactly when some
      character of the text is a backslash. */
  lemma EsLatexIffBackslash(cadena: string)
    ensures EsLatex(cadena) <==> '\\' in cadena
  {
    ContainsChar(cadena, '\\');
  }

  // ------------------------------------------------------------- _pre_normalizar_ascii

  /** A replacement of one character by one character. */
  predicate CharStep(st: Step) {
    st.Replace? && st.p.Literal? && |st.p.pat| == 1 && |st.p.rep| == 1
  }

  /** Where a sequence of such replacements takes one character. */
  function MapChar(steps: seq<Step>, c: char): char
    requires forall i :: 0 <= i < |steps| ==> CharStep(steps[i])
    decreases |steps|
  {
    if steps == [] then c
    else
      assert CharStep(steps[0]);
      MapChar(steps[1..], if c == steps[0].p.pat[0] then steps[0].p.rep[0] else c)
  }

  /** Replacements of one character by one character act on each character
      separately. */
  lemma {:induction false} RunCharSteps(steps: seq<Step>, s: string)
    requires forall i :: 0 <= i < |steps| ==> CharStep(steps[i])
    ensures |Run(steps, s)| == |s|
    ensures forall i :: 0 <= i < |s| ==> Run(steps, s)[i] == MapChar(steps, s[i])
    decreases |steps|
  {
    if steps != [] {
      var a, b := steps[0].p.pat[0], steps[0].p.rep[0];
      assert steps[0].p == Literal([a], [b]);
      ReplaceCharIsTranslate(a, b, s, false);
      RunCharSteps(steps[1..], Translate(s, a, b));
    }
  }

  /** The fold lines 36-38 intend, character by character. */
  function Fold(c: char): char {
    if c == '\U{2032}' || c == '\U{2019}' || c == '\U{2035}' then '\''
    else if c == '\U{2212}' || c == '\U{2013}' || c == '\U{2014}' then '-'
    else if c == '\U{B7}' || c == '\U{22C5}' || c == '\U{D7}' then '*'
    else c
  }

  lemma PreFoldsAreCharSteps()
    ensures forall i :: 0 <= i < |PreFolds| ==> CharStep(PreFolds[i])
  {
  }

  lemma PreFoldsMapChar(c: char)
    ensures forall i :: 0 <= i < |PreFolds| ==> CharStep(PreFolds[i])
    ensures MapChar(PreFolds, c) == Fold(c)
  {
    assert PreFolds[1..][1..][1..][1..][1..][1..][1..][1..][1..] == [];
  }

  /** Lines 35-39: the result has the length of the input and is the input with
      every character folded. */
  lemma PreNormalizarPointwise(s: string)
    ensures FoldedFrom(PreNormalizarAscii(s), s)
  {
    PreFoldsAreCharSteps();
    RunCharSteps(PreFolds, s);
    forall i | 0 <= i < |s|
      ensures PreNormalizarAscii(s)[i] == Fold(s[i])
    {
      PreFoldsMapChar(s[i]);
    }
  }

  /** The nine characters lines 36-38 fold away. */
  const Typographic: set<char> :=
    {'\U{2032}', '\U{2019}', '\U{2035}', '\U{2212}', '\U{2013}', '\U{2014}', '\U{B7}', '\U{22C5}', '\U{D7}'}

  /** `r` is `s` with every character folded. */
  predicate FoldedFrom(r: string, s: string) {
    |r| == |s| && forall i :: 0 <= i < |s| ==> r[i] == Fold(s[i])
  }

  lemma FoldedChars(r: string, s: string)
    requires FoldedFrom(r, s)
    ensures forall c :: c in r ==> c !in Typographic
    ensures '\\' in r <==> '\\' in s
  {
    if '\\' in s {
      var i :| 0 <= i < |s| && s[i] == '\\';
      assert r[i] == '\\';
    }
  }

  lemma FoldedTwice(r: string, s: string, t: string)
    requires FoldedFrom(r, s) && FoldedFrom(t, r)
    ensures t == r
  {
  }

  /** None of the folded characters is left. */
  lemma PreNormalizarRemoves(s: string)
    ensures forall c :: c in PreNormalizarAscii(s) ==> c !in Typographic
  {
    PreNormalizarPointwise(s);
    FoldedChars(PreNormalizarAscii(s), s);
  }

  /** Folding twice is folding once. */
  lemma PreNormalizarIdempotent(s: string)
    ensures PreNormalizarAscii(PreNormalizarAscii(s)) == PreNormalizarAscii(s)
  {
    var once := PreNormalizarAscii(s);
    PreNormalizarPointwise(s);
    PreNormalizarPointwise(once);
    FoldedTwice(once, s, PreNormalizarAscii(once));
  }

  /** Folding neither introduces nor removes a backslash, so line 120 sees the
      same answer before and after line 118's fold. */
  lemma PreNormalizarKeepsLatex(s: string)
    ensures EsLatex(PreNormalizarAscii(s)) <==> EsLatex(s)
  {
    var r := PreNormalizarAscii(s);
    PreNormalizarPointwise(s);
    FoldedChars(r, s);
    EsLatexIffBackslash(s);
    EsLatexIffBackslash(r);
  }

  // ------------------------------------------------------------- _insertar_mult_implicita_para_dxdy

  /** Line 42 drops every ASCII space, and none of the rewrites of lines 45-64
      writes one back. */
  lemma InsertarRemovesSpaces(s: string)
    ensures ' ' !in InsertarMultImplicitaParaDxdy(s)
  {
    ProductsWriteStars();
    var first := Implicit[0];
    assert first.Replace? && first.p.Literal? && first.p.pat == [' '] && ' ' !in first.p.rep;
    assert Removes(Implicit, ' ');
    RunRemoves(Implicit, s, ' ');
  }

  /** The rewrites of lines 45-64 write nothing but `*`. */
  lemma ProductsWriteStars()
    ensures RunIntroduced(Implicit[1..]) <= {'*'}
  {
    var rest := Implicit[1..];
    assert forall i :: 0 <= i < |rest| ==> StepIntroduced(rest[i]) <= {'*'};
    RunIntroducedWithin(rest, {'*'});
  }

  /** Lines 41-66 only insert `*` and drop spaces: once `*` and whitespace are
      deleted, the result and the input read the same. */
  lemma InsertarOnlyInsertsStars(s: string)
    ensures Strip(InsertarMultImplicitaParaDxdy(s)) == Strip(s)
  {
    assert Strip(" ") == Strip("");
    RunStrip(Implicit, s);
  }
}
