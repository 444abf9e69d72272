# CalculadoraEDO text normalisers, modelled in Dafny

CalculadoraEDO is an Android calculator for ordinary differential equations.
The user types an equation on a keypad into an equation field. The Kotlin
front end rewrites the typed text into SymPy notation (`aFormatoParaPython`)
and hands it to a Python solver. The solver normalises the text once more
(typographic characters to ASCII, explicit products, primes to `diff`, the
bare unknown `y` to `y(x)`). It then recognises the differential form
`M dx + N dy = 0` and tries SymPy's solution methods in a fixed order.

This project models that text-handling core:

- **`Rewrite`** (`rewrite.dfy`) is one left-to-right, non-overlapping
  substitution scanner. It gives the meaning of Kotlin's `String.replace`, of
  `Regex.replace`, of Python's `str.replace` and of `re.sub`. Each regular
  expression of the source is one constructor of `Pattern`, recognised by
  `MatchLen`. A leading `\b` is handled by passing along whether the previous
  character is a word character.
- **`Pipeline`** (`pipeline.dfy`) runs a sequence of such rewrites, the way
  each routine rebinds `s` or `t` line after line. It also proves what a
  sequence keeps: which characters can appear, occurrence counts, deletions,
  and the text once `*` and whitespace are removed.
- **`KotlinFormat`** and **`KotlinFacts`**, **`KotlinVariables`** cover
  `aFormatoParaPython`, step for step, and its guarantees.
- **`Editor`** covers the equation field. `EquationField` is a class holding
  the text and the two selection ends. `insertAtCursor` and `backspace` are
  methods that update them in place. Each method is proved against a pure
  function of the old state (`Inserted`, `Backspaced`).
- **`PythonFormat`**, **`PythonFacts`**, **`PythonPrimes`** and
  **`PythonExamples`** cover `_es_latex`, `_pre_normalizar_ascii`,
  `_insertar_mult_implicita_para_dxdy` and `_normalizar_primas_sympy`.
- **`Differential`** and **`DifferentialFacts`** cover the split of
  `_a_edo_si_es_diferencial` into the texts of `M` and `N`. It stops before
  they are given to SymPy.
- **`Hints`** covers the order of solution methods built in `resolver_edo`, as
  a method with a loop.

Character classes follow the host languages (`chars.dfy`):

- Java's `\s` is `[ \t\n\x0B\f\r]`.
- Kotlin's `trim()` uses `Char.isWhitespace()`.
- Python's `\s` is `str.isspace()`.

Two behaviours of the code worth knowing. The model keeps both as written:

- **The right single quotation mark.** Line 125 of `MainActivity.kt` replaces
  the ASCII apostrophe by itself. Its Python counterpart, line 36 of
  `solver.py`, folds the right single quotation mark (U+2019) to the
  apostrophe. A typed `’` therefore passes the Kotlin side unchanged and is
  folded only by the solver. `KotlinFormat.FoldPrimes` keeps the no-op
  replacement.
- **Spaces around operators survive.** Lines 135-148 drop `dx`, turn `dy`
  into `*diff(y(x),x)` and collapse runs of whitespace. A run of spaces
  between two non-space characters shrinks to one space but does not vanish,
  with one exception: line 147 writes `x y(x)` as `x*y(x)`. The `trim()`
  calls of lines 138 and 148 also drop a space left at either end of the
  text. By those lines
  `2 dx + y dy` becomes `2 + y(x) *diff(y(x),x)`. `KotlinFacts.FormatSpacing`
  states what the code guarantees: single spaces and trimmed ends.

## Model

| member | source | states |
|---|---|---|
| `Text.Trim` | app/src/main/java/com/example/calculadoraedo/MainActivity.kt:124 | the result is a slice of the input. Only whitespace precedes or follows it, and it neither starts nor ends with whitespace. |
| `KotlinFacts.FormatChars` | app/src/main/java/com/example/calculadoraedo/MainActivity.kt:123-151 | no typographic prime, dash, times sign or `^` survives the conversion. Every character of the result was typed, or is a character of the routine's replacement texts (`**`, `diff(y(x),x,2)`, `*`, `-`, `'` and the like) or of its placeholder `YFUNC_TMP`. |
| `KotlinFacts.FormatKeepsEquals` | app/src/main/java/com/example/calculadoraedo/MainActivity.kt:123-151 | the conversion keeps the number of `=` signs. |
| `KotlinFacts.SpaceRunSingleSpaced` | app/src/main/java/com/example/calculadoraedo/MainActivity.kt:130 | after collapsing `\s+` to one space, every `\s` character of the result (Java's `[ \t\n\x0B\f\r]`) is a plain space and is not followed by another `\s` character. The first character is `\s` exactly when the input's was. |
| `KotlinFacts.FormatSpacing` | app/src/main/java/com/example/calculadoraedo/MainActivity.kt:148 | the converted text is single-spaced and starts and ends with a non-whitespace character. |
| `KotlinFacts.RunSecondDerivative` | app/src/main/java/com/example/calculadoraedo/MainActivity.kt:131-133 | the three derivative lines turn a leading `y''` into `diff(y(x),x,2)` and convert the rest of the text on its own, for every rest: the second derivative is never split into a first derivative and a stray prime. |
| `KotlinFacts.RunFirstDerivative` | app/src/main/java/com/example/calculadoraedo/MainActivity.kt:131-133 | the three derivative lines turn a leading `y'` that no further prime follows into `diff(y(x),x)` and convert the rest of the text on its own. |
| `KotlinFacts.SecondDerivative` | app/src/main/java/com/example/calculadoraedo/MainActivity.kt:132-133 | a leading `y''` becomes `diff(y(x),x,2)` and the rest of the text is rewritten on its own: the `y'` rewrite of line 133 never reads into the second derivative written by line 132. |
| `KotlinFacts.FirstDerivative` | app/src/main/java/com/example/calculadoraedo/MainActivity.kt:132-133 | a leading `y'` not followed by another prime becomes `diff(y(x),x)`, and the rest is rewritten on its own. |
| `KotlinFacts.DiffTextKept` | app/src/main/java/com/example/calculadoraedo/MainActivity.kt:133 | the `y'` rewrite leaves a derivative text written by line 132 or 133 untouched and carries on after it. |
| `KotlinVariables.WrapEveryY` | app/src/main/java/com/example/calculadoraedo/MainActivity.kt:142 | after replacing every `y` with `y(x)`, every `y` is followed by `(x)`. |
| `KotlinVariables.KeepApplied` | app/src/main/java/com/example/calculadoraedo/MainActivity.kt:143-148 | the placeholder restore, the four product rewrites and the space collapse keep every `y` followed by `(x)`. |
| `KotlinVariables.FormatApplied` | app/src/main/java/com/example/calculadoraedo/MainActivity.kt:141-143 | in the converted text every `y` is followed by `(x)`. |
| `KotlinVariables.ProductsSeparate` | app/src/main/java/com/example/calculadoraedo/MainActivity.kt:144-148 | `(\d)(x)` leaves no digit directly before `x`. `(\d)(y\(x\))` does the same for `y` once every `y` is applied. Every later rewrite keeps both. |
| `KotlinVariables.FormatSeparatesDigits` | app/src/main/java/com/example/calculadoraedo/MainActivity.kt:144-145 | in the converted text no digit is directly followed by `x` or by `y` (so `2x`, `3y` reach the solver as `2*x`, `3*y(x)`). |
| `Editor.Lo` | app/src/main/java/com/example/calculadoraedo/MainActivity.kt:99-101 | the lower selection end is one of the two ends clamped at 0, and not above either. |
| `Editor.Hi` | app/src/main/java/com/example/calculadoraedo/MainActivity.kt:99-102 | the upper selection end is one of the two ends clamped at 0, and not below either. |
| `Editor.Inserted` | app/src/main/java/com/example/calculadoraedo/MainActivity.kt:98-105 | inserting keeps the text before the selection and the text after it, puts the fragment between them, and places the cursor right after the fragment. The length changes by the fragment's length minus the selection's. |
| `Editor.Backspaced` | app/src/main/java/com/example/calculadoraedo/MainActivity.kt:107-121 | a selection is deleted and the cursor moves to its start. Without one, the character before the cursor is deleted. At position 0 nothing changes. The new text is the old one with exactly that stretch removed. |
| `Editor.EquationField.InsertAtCursor` | app/src/main/java/com/example/calculadoraedo/MainActivity.kt:98-105 | the field's text and collapsed cursor become `Inserted` of the old text and selection. The selection stays within the text. |
| `Editor.EquationField.Backspace` | app/src/main/java/com/example/calculadoraedo/MainActivity.kt:107-121 | the field's text becomes `Backspaced` of the old state, with the cursor collapsed at the new position. With no selection at position 0, the selection is left as it was. |
| `Editor.Backspaces` | app/src/main/java/com/example/calculadoraedo/MainActivity.kt:107-121 | `n` deletes without a selection remove the `n` characters before the cursor (all of them when there are fewer) and move the cursor back accordingly. |
| `Editor.BackspaceUndoesKey` | app/src/main/java/com/example/calculadoraedo/MainActivity.kt:98-121 | typing one key and then deleting restores the text and the cursor. |
| `Editor.BackspacesUndoInsert` | app/src/main/java/com/example/calculadoraedo/MainActivity.kt:98-121 | as many deletes as the fragment is long undo an insertion, except that the replaced selection stays deleted. |
| `Editor.InsertOverSelection` | app/src/main/java/com/example/calculadoraedo/MainActivity.kt:98-121 | typing over a selection equals deleting the selection and then typing at its start. |
| `PythonFacts.EsLatexIffBackslash` | app/src/main/python/solver.py:32-33 | the text counts as LaTeX exactly when one of its characters is a backslash. |
| `PythonFacts.RunCharSteps` | app/src/main/python/solver.py:36-38 | a chain of one-character-for-one-character replacements keeps the length and maps each character on its own. |
| `PythonFacts.PreNormalizarPointwise` | app/src/main/python/solver.py:35-39 | the folded text has the input's length, and each character is the input's character folded (primes and `’` to `'`, dashes to `-`, dots and `×` to `*`, everything else unchanged). |
| `PythonFacts.PreNormalizarRemoves` | app/src/main/python/solver.py:35-39 | none of the nine folded characters is left. |
| `PythonFacts.PreNormalizarIdempotent` | app/src/main/python/solver.py:35-39 | folding twice is folding once. |
| `PythonFacts.PreNormalizarKeepsLatex` | app/src/main/python/solver.py:118-120 | folding never changes whether the text counts as LaTeX, so the LaTeX test on the folded text answers as it would on the typed one. |
| `PythonFacts.InsertarRemovesSpaces` | app/src/main/python/solver.py:41-66 | no ASCII space is left after the implicit-product insertion. |
| `PythonFacts.InsertarOnlyInsertsStars` | app/src/main/python/solver.py:41-66 | once `*` and whitespace are deleted, the result reads exactly as the input: the routine only inserts `*` and drops spaces. |
| `PythonExamples.PowerExample` | app/src/main/python/solver.py:44-45 | `\bx(\d+)\b` turns `x2` into `x**2`. |
| `PythonExamples.DigitExample` | app/src/main/python/solver.py:48-49 | `(\d)([xy])\b` turns `2x` into `2*x`. |
| `PythonExamples.PairExamples` | app/src/main/python/solver.py:51-54 | `\by\s*x\b` turns `y x` into `y*x`, and `\bxy\b` turns `xy` into `x*y`. |
| `PythonExamples.ParenExample` | app/src/main/python/solver.py:57-58 | `\)([xy])\b` turns `(a)x` into `(a)*x`. |
| `PythonExamples.ParenDiffExample` | app/src/main/python/solver.py:60-61 | `\)(d[xy])\b` turns `(a)dy` into `(a)*dy`. |
| `PythonExamples.DiffExample` | app/src/main/python/solver.py:63-64 | `\b([xy])(d[xy])\b` turns `xdx` into `x*dx`. |
| `PythonExamples.PrimesExample` | app/src/main/python/solver.py:69-78 | `y''` becomes `diff(y(x),x,2)`. |
| `PythonPrimes.PrimesReplaced` | app/src/main/python/solver.py:69-78 | `y` followed by exactly `n` primes becomes `diff(y(x),x)` for one prime and `diff(y(x),x,n)` for more. The whole run of primes is consumed, and the scan resumes after it. |
| `Chars.NatToStringValue` | app/src/main/python/solver.py:74 | the decimal numeral written for the prime count (`f"{n}"`) reads back as `n`. |
| `PythonPrimes.PrimesCleared` | app/src/main/python/solver.py:78 | after the prime rewrite no `y` is directly followed by a prime. |
| `PythonPrimes.BareYKeepsNoYPrime` | app/src/main/python/solver.py:79 | wrapping bare `y` keeps the text free of `y'`. |
| `PythonPrimes.NormalizarNoYPrime` | app/src/main/python/solver.py:68-80 | no `y'` survives the whole normalisation. |
| `PythonPrimes.ParenKept` | app/src/main/python/solver.py:79 | where optional whitespace and `(` followed, they still follow after the bare-`y` rewrite. |
| `PythonPrimes.BareYCalls` | app/src/main/python/solver.py:79 | after `\by\b(?!\s*\()` is replaced by `y(x)`, every whole-word `y` is followed, after optional whitespace, by `(`. |
| `PythonPrimes.NormalizarCallsY` | app/src/main/python/solver.py:68-80 | in the normalised text every whole-word `y` is a call. |
| `Text.SplitOnce` | app/src/main/python/solver.py:89 | `split(sep, 1)` fails exactly when `sep` does not occur. Otherwise it returns the text before the first occurrence (which holds none) and the text after, around that occurrence. |
| `DifferentialFacts.NoSpacesFacts` | app/src/main/python/solver.py:86 | dropping spaces leaves none, and leaves a text without spaces unchanged. |
| `DifferentialFacts.ZeroLeftSound` | app/src/main/python/solver.py:88-92 | an accepted text is either free of `=` and taken whole, or is a left side free of `=` followed by `=0`, `=+0` or `=-0`. |
| `DifferentialFacts.ZeroLeftOfEquation` | app/src/main/python/solver.py:88-92 | `lhs=rhs` gives `lhs` when `rhs` is `0`, `+0` or `-0`, and is rejected otherwise. |
| `DifferentialFacts.EndsInDy` | app/src/main/python/solver.py:97-99 | a text with `dy` only at its end splits into the part before it and an empty part. |
| `DifferentialFacts.SplitLeftRecognises` | app/src/main/python/solver.py:94-110 | `M dx N dy` with `dx` first after a non-empty `M` and `dy` only at the end yields `M` and `N` given a sign. |
| `DifferentialFacts.SplitLeftSound` | app/src/main/python/solver.py:94-110 | what lines 94-110 accept is `M dx N0 dy` with `dy` only at the very end: `M` non-empty and free of `dx`, `N0` non-empty, and the returned `N` is `N0` given a `+` when it had no sign. Together with `SplitLeftRecognises` this characterises the accepted texts in both directions. |
| `DifferentialFacts.SplitSound` | app/src/main/python/solver.py:86-110 | an accepted equation, once spaces are dropped, is `M dx N0 dy` (non-empty `M` free of `dx`, non-empty `N0`, `dy` only at the end) optionally followed by `=0`, `=+0` or `=-0`; the returned `N` is `N0` signed, and `M` and `N` contain no spaces. |
| `DifferentialFacts.SplitRecognisesEquation` | app/src/main/python/solver.py:86-110 | `M dx N dy = 0` (with `+0` or `-0` as well) is recognised, and the result is `M` and the signed `N`. |
| `DifferentialFacts.SplitRecognisesExpression` | app/src/main/python/solver.py:86-110 | `M dx N dy` without a right-hand side is recognised as well. |
| `DifferentialFacts.SplitRejectsNonzero` | app/src/main/python/solver.py:88-91 | a right-hand side other than `0`, `+0` or `-0` is rejected. |
| `Hints.Rank` | app/src/main/python/solver.py:182 | the position of a preferred method in the preference list. |
| `Hints.Candidates` | app/src/main/python/solver.py:181-186 | the candidates end with `all_Integral`, `best_hint`. Before those come exactly the preferred methods the classification offers, each once, in preference order. |

## Left out

- SymPy is left out: `sympify`, `parse_latex`, `dsolve`, `classify_ode`, `latex`, `diff`, `Eq`. It is an external library. The differential form is modelled up to the texts of `M` and `N` (lines 86-110 of `solver.py`). The classification reaches `Hints.Candidates` as a parameter.
- The LaTeX branch and the final `sympify` dispatch of `_construir_edo` (lines 117-141 of `solver.py`) are thin calls into the parser. Only the fold-then-test order of lines 118-120 is stated (`PythonFacts.PreNormalizarKeepsLatex`).
- The per-method time limit (`SIGALRM`), the retry loop around `dsolve` and result formatting are left out: they are signals, clocks and library exceptions.
- Initial-condition parsing is left out. It relies on `float()`.
- Android wiring is left out: `onCreate`, the keypad table, `Python.start`, the solver thread and `runOnUiThread`. It is platform plumbing and concurrency.
- LaTeX rasterisation for the previews is left out. It is rendering.
- Python's `\d` and `\w` are modelled as ASCII-only. Python's `str` patterns also accept non-ASCII digits and letters; the model treats those as non-word characters.
- `KotlinFormat.AFormatoParaPython`, `PythonFormat.InsertarMultImplicitaParaDxdy` and `PythonFormat.NormalizarPrimasSympy`: the whole-routine examples (`y''+y'=0`, `2x+3y=5`, `x^2+y^2`) are not evaluated, because evaluating the scanner on literal texts through a whole routine exceeds the verifier's budget. What they illustrate is stated in general instead: `KotlinFacts.SecondDerivative` and `KotlinFacts.FirstDerivative` for the primes of lines 132-133, `KotlinVariables.FormatSeparatesDigits` and `KotlinVariables.FormatApplied` for `2x+3y`, `PythonPrimes.PrimesReplaced` for the solver's primes. Single regular expressions are checked on their own examples in `PythonExamples`.
- `Editor.EquationField`: Android's `Editable` spans, input filters and the exception `setSelection` throws out of range are not modelled. The selection ends are assumed never to exceed the text's length, which Android guarantees for an `EditText`.
- `Editor.Backspaced` and `Editor.EquationField`: the text is a sequence of characters, and deleting removes one whole character. Android's `Editable` indexes UTF-16 code units, so a delete after a character outside the Basic Multilingual Plane removes only half of its surrogate pair; the model does not capture that.
- `KotlinFacts.SpaceRunSingleSpaced`, `KotlinVariables.ProductsSeparate` and the other members over the Kotlin regular expressions: `\s` and `\d` are modelled with the ASCII classes of the desktop JDK's `java.util.regex` (`Chars.IsJavaSpace`, `Chars.IsAsciiDigit`). Android's `java.util.regex` is backed by ICU, whose classes may also match Unicode spaces and digits; the model does not capture that difference.
