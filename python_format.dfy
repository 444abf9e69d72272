/** The text normalisers of solver.py (lines 32-80): the LaTeX test, the fold
    of typographic characters to ASCII, the explicit products a differential
    form needs, and the rewriting of primes and of the bare unknown `y` into
    SymPy's notation. Each constant is one group of consecutive lines, step
    for step. */
module PythonFormat {
  import opened Text
  import opened Rewrite
  import opened Pipeline

  /** `_es_latex` (lines 32-33): the text is LaTeX when it contains a backslash. */
  predicate EsLatex(cadena: string) {
    Contains(cadena, "\\")
  }

  /** Lines 36-38: prime, right single quotation mark and reversed prime to
      `'`; minus sign, en dash and em dash to `-`; middle dot, dot operator and
      multiplication sign to `*`. */
  const PreFolds: seq<Step> :=
    [Replace(Literal("\U{2032}", "'")), Replace(Literal("\U{2019}", "'")), Replace(Literal("\U{2035}", "'")),
     Replace(Literal("\U{2212}", "-")), Replace(Literal("\U{2013}", "-")), Replace(Literal("\U{2014}", "-")),
     Replace(Literal("\U{B7}", "*")), Replace(Literal("\U{22C5}", "*")), Replace(Literal("\U{D7}", "*"))]

  /** `_pre_normalizar_ascii` (lines 35-39). */
  function PreNormalizarAscii(s: string): string {
    Run(PreFolds, s)
  }

  /** Lines 42-64: drop every ASCII space, then the ten `re.sub` calls in the
      order they are written. */
  const Implicit: seq<Step> :=
    [Replace(Literal(" ", "")),
     Replace(VarPower('x')), Replace(VarPower('y')),
     Replace(DigitVar),
     Replace(VarSpacedVar('x', 'y')), Replace(VarSpacedVar('y', 'x')),
     Replace(VarVar('x', 'y')), Replace(VarVar('y', 'x')),
     Replace(ParenVar), Replace(ParenDiff),
     Replace(VarDiff)]

  /** `_insertar_mult_implicita_para_dxdy` (lines 41-66). */
  function InsertarMultImplicitaParaDxdy(s: string): string {
    Run(Implicit, s)
  }

  /** `_normalizar_primas_sympy` (lines 68-80): fold, insert the products, turn
      `y` with primes into `diff`, then apply every bare `y` to `x`. */
  function NormalizarPrimasSympy(cadena: string): string {
    Sub(BareY, Sub(YPrimes, InsertarMultImplicitaParaDxdy(PreNormalizarAscii(cadena))))
  }
}
