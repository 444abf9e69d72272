/** The rewrites of solver.py on the examples its own comments give
    (lines 44-64 and 69-74), one regular expression at a time. */
module PythonExamples {
  import opened Rewrite

  /** Line 45: `x2` becomes `x**2`. */
  lemma PowerExample()
    ensures Sub(VarPower('x'), "x2") == "x**2"
  {
  }

  /** Line 49: `2x` becomes `2*x`. */
  lemma DigitExample()
    ensures Sub(DigitVar, "2x") == "2*x"
  {
  }

  /** Lines 53-54: `y x` and `xy` become `y*x` and `x*y`. */
  lemma PairExamples()
    ensures Sub(VarSpacedVar('y', 'x'), "y x") == "y*x"
    ensures Sub(VarVar('x', 'y'), "xy") == "x*y"
  {
  }

  /** Line 58: `(a)x` becomes `(a)*x`. */
  lemma ParenExample()
    ensures Sub(ParenVar, "(a)x") == "(a)*x"
  {
  }

  /** Line 61: `(a)dy` becomes `(a)*dy`. */
  lemma ParenDiffExample()
    ensures Sub(ParenDiff, "(a)dy") == "(a)*dy"
  {
  }

  /** Line 64: `xdx` becomes `x*dx`. */
  lemma DiffExample()
    ensures Sub(VarDiff, "xdx") == "x*dx"
  {
  }

  /** Lines 69-74: `y''` becomes `diff(y(x),x,2)`. */
  lemma PrimesExample()
    ensures Sub(YPrimes, "y''") == "diff(y(x),x,2)"
  {
  }
}
