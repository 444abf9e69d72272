/** `_a_edo_si_es_diferencial` of solver.py (lines 82-115), up to the point
    where the two coefficients are handed to SymPy: an equation written
    `M dx + N dy = 0` is recognised and split into the texts of `M` and `N`. */
module Differential {
  import opened Chars
  import opened Text
  import opened Rewrite
  import opened RewriteFacts

  /** Line 86: `s.replace(" ", "")`. */
  function NoSpaces(s: string): string {
    Sub(Literal(" ", ""), s)
  }

  /** Line 90: the right-hand sides accepted as zero. */
  predicate IsZero(rhs: string) {
    rhs == "0" || rhs == "+0" || rhs == "-0"
  }

  /** Lines 88-92: the left-hand side of an equation whose right-hand side is
      zero, the whole text when there is no `=`, and None otherwise. */
  function ZeroLeft(t: string): Option<string> {
    match SplitOnce(t, "=")
    case None => Some(t)
    case Some((lhs, rhs)) => if IsZero(rhs) then Some(lhs) else None
  }

  /** Lines 109-110: a sign is put in front of `N` unless it has one. */
  function Signed(n: string): string
    requires n != []
  {
    if n[0] == '+' || n[0] == '-' then n else "+" + n
  }

  /** Lines 94-110 on the left-hand side `t`: `t` must read `M dx N dy` with
      `dy` only at its end, `dx` first after a non-empty `M`, and a non-empty
      `N`. */
  function SplitLeft(t: string): Option<(string, string)> {
    if !Contains(t, "dx") || !Contains(t, "dy") then None
    else
      var parts := SplitAll(t, "dy");
      if |parts| != 2 || parts[1] != "" then None
      else
        match SplitOnce(parts[0], "dx")
        case None => None
        case Some((m, n)) => if m == "" || n == "" then None else Some((m, Signed(n)))
  }

  /** Lines 86-110: the texts of `M` and of the signed `N`, or None when the
      equation is not of the form `M dx + N dy = 0`. */
  function SplitDifferential(s: string): Option<(string, string)> {
    match ZeroLeft(NoSpaces(s))
    case None => None
    case Some(t) => SplitLeft(t)
  }
}
