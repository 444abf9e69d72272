/** `aFormatoParaPython` of MainActivity.kt: the fixed sequence of whole-text
    rewrites that turns what the user typed on the keypad into the text handed
    to the Python solver. Each constant below is one group of consecutive
    lines of the routine, step for step. */
module KotlinFormat {
  import opened Text
  import opened Rewrite
  import opened Pipeline

  /** The placeholder that protects an existing `y(x)` while bare `y` is wrapped. */
  const Placeholder: string := "YFUNC_TMP"

  /** Line 125: typographic primes to the ASCII apostrophe. The second
      replacement maps the ASCII apostrophe to itself, as written in the source. */
  const FoldPrimes: seq<Step> :=
    [Replace(Literal("\U{2032}", "'")), Replace(Literal("'", "'")), Replace(Literal("\U{2035}", "'"))]

  /** Line 126: minus sign, en dash and em dash to `-`. */
  const FoldDashes: seq<Step> :=
    [Replace(Literal("\U{2212}", "-")), Replace(Literal("\U{2013}", "-")), Replace(Literal("\U{2014}", "-"))]

  /** Lines 127-128: middle dot, dot operator, multiplication sign and the
      LaTeX `\cdot` to `*`. */
  const FoldTimes: seq<Step> :=
    [Replace(Literal("\U{B7}", "*")), Replace(Literal("\U{22C5}", "*")), Replace(Literal("\U{D7}", "*")),
     Replace(Literal("\\cdot", "*"))]

  /** Lines 129-130: no whitespace around `=`, every other whitespace run one
      space, then trim. */
  const TidySpaces: seq<Step> := [Replace(EqualsSpaced), Replace(SpaceRun), TrimSpace]

  /** Lines 131-133: `^` to `**`, then `y''` before `y'`. */
  const Derivatives: seq<Step> :=
    [Replace(Literal("^", "**")), Replace(Literal("y''", "diff(y(x),x,2)")), Replace(Literal("y'", "diff(y(x),x)"))]

  /** Lines 136-138: `dy` becomes `*diff(y(x),x)`, `dx` disappears, and the
      whitespace is tidied again. */
  const Differentials: seq<Step> :=
    [Replace(Literal("dy", "*diff(y(x),x)")), Replace(Literal("dx", "")), Replace(SpaceRun), TrimSpace]

  /** Lines 141-143: every bare `y` becomes `y(x)`; an existing `y(x)` is parked
      in the placeholder meanwhile so that it is not wrapped twice. */
  const WrapY: seq<Step> :=
    [Replace(Literal("y(x)", Placeholder)), Replace(Literal("y", "y(x)")), Replace(Literal(Placeholder, "y(x)"))]

  /** Lines 144-147: implicit products after one digit and between `x` and `y(x)`. */
  const Products: seq<Step> := [Replace(DigitX), Replace(DigitYOfX), Replace(XYOfX), Replace(XSpacedYOfX)]

  /** Line 148: the final whitespace collapse and trim. */
  const FinalTidy: seq<Step> := [Replace(SpaceRun), TrimSpace]

  /** Lines 124-133: everything before the differential-form test. */
  function Front(expr: string): string {
    Run(Derivatives, Run(TidySpaces, Run(FoldTimes, Run(FoldDashes, Run(FoldPrimes, Trim(expr))))))
  }

  /** Lines 135-139: the differential form is rewritten only when the text
      mentions `dx` or `dy`. */
  function RewriteDifferentials(s: string): string {
    if Contains(s, "dx") || Contains(s, "dy") then Run(Differentials, s) else s
  }

  /** Lines 123-151: the whole routine. */
  function AFormatoParaPython(expr: string): string {
    Run(FinalTidy, Run(Products, Run(WrapY, RewriteDifferentials(Front(expr)))))
  }
}
