/** The order in which `resolver_edo` (solver.py, lines 180-186) asks SymPy's
    `dsolve` for a solution: the preferred methods SymPy's classification
    offers, in a fixed order, then the two that always apply. */
module Hints {

  /** Line 182: the preferred solution methods, most preferred first. */
  const Preferred: seq<string> := ["exact", "separable", "1st_linear", "Bernoulli", "Cauchy_Euler"]

  /** Line 186: the methods tried in every case, last. */
  const Fallbacks: seq<string> := ["all_Integral", "best_hint"]

  /** Position of a preferred method in line 182's list. */
  function Rank(h: string): (k: nat)
    requires h in Preferred
    ensures k < |Preferred| && Preferred[k] == h
  {
    if h == "exact" then 0
    else if h == "separable" then 1
    else if h == "1st_linear" then 2
    else if h == "Bernoulli" then 3
    else 4
  }

  /** Lines 181-186: the candidate methods for the classification `hints`. */
  method Candidates(hints: seq<string>) returns (candidatos: seq<string>)
    ensures |candidatos| >= 2 && candidatos[|candidatos| - 2..] == Fallbacks
    ensures forall h :: h in candidatos[..|candidatos| - 2] <==> h in Preferred && h in hints
    ensures forall i, j :: 0 <= i < j < |candidatos| - 2 ==>
              candidatos[i] in Preferred && candidatos[j] in Preferred && Rank(candidatos[i]) < Rank(candidatos[j])
  {
    candidatos := [];
    for k := 0 to |Preferred|
      invariant forall h :: h in candidatos <==> h in Preferred[..k] && h in hints
      invariant forall i :: 0 <= i < |candidatos| ==> candidatos[i] in Preferred && Rank(candidatos[i]) < k
      invariant forall i, j :: 0 <= i < j < |candidatos| ==> Rank(candidatos[i]) < Rank(candidatos[j])
    {
      var pref := Preferred[k];
      assert Rank(pref) == k;
      assert Preferred[..k + 1] == Preferred[..k] + [pref];
      if pref in hints {
        candidatos := candidatos + [pref];
      }
    }
    assert Preferred[..|Preferred|] == Preferred;
    var chosen := candidatos;
    candidatos := candidatos + Fallbacks;
    assert candidatos[..|candidatos| - 2] == chosen;
  }
}
