/** Leftmost, non-overlapping substitution: the behaviour shared by Kotlin's
    `String.replace(String, String)`, Kotlin's `String.replace(Regex, String)`,
    Python's `str.replace` and Python's `re.sub`. Each of the regular
    expressions the normalisers use is one constructor of `Pattern`, matched by
    a small hand-written recogniser (`MatchLen`), so that no regular-expression
    engine is needed. */
module Rewrite {
  import opened Chars

  datatype Pattern =
    /** A literal, non-empty search string and its replacement. */
    | Literal(pat: string, rep: string)
    // java.util.regex patterns of MainActivity.kt
    /** `\s*=\s*` replaced by "=" */
    | EqualsSpaced
    /** `\s+` replaced by " " */
    | SpaceRun
    /** `(\d)(x)` replaced by "$1*$2" */
    | DigitX
    /** `(\d)(y\(x\))` replaced by "$1*$2" */
    | DigitYOfX
    /** `xy\(x\)` replaced by "x*y(x)" */
    | XYOfX
    /** `x\s*y\(x\)` replaced by "x*y(x)" */
    | XSpacedYOfX
    // Python re patterns of solver.py
    /** `\bv(\d+)\b` replaced by `v**\1`, for v in {x, y} */
    | VarPower(v: char)
    /** `(\d)([xy])\b` replaced by `\1*\2` */
    | DigitVar
    /** `\ba\s*b\b` replaced by "a*b" */
    | VarSpacedVar(a: char, b: char)
    /** `\bab\b` replaced by "a*b" */
    | VarVar(a: char, b: char)
    /** `\)([xy])\b` replaced by `)*\1` */
    | ParenVar
    /** `\)(d[xy])\b` replaced by `)*\1` */
    | ParenDiff
    /** `\b([xy])(d[xy])\b` replaced by `\1*\2` */
    | VarDiff
    /** `y('+)` replaced by "diff(y(x),x)" for one prime, "diff(y(x),x,n)" for n primes */
    | YPrimes
    /** `\by\b(?!\s*\()` replaced by "y(x)" */
    | BareY

  /** `\b` right after a matched word character that ends at index `j`. */
  predicate AtWordEnd(s: string, j: nat) {
    j >= |s| || !IsWordChar(s[j])
  }

  /** The lookahead `\s*\(`: optional whitespace, then an opening parenthesis. */
  predicate ParenAhead(t: string) {
    Span(t, PySpace) < |t| && t[Span(t, PySpace)] == '('
  }

  /** Length of the match of `p` at the start of `s` (0 when there is none).
      `prevWord` tells whether the character before `s` is a word character,
      which is what a leading `\b` looks at. */
  function MatchLen(p: Pattern, s: string, prevWord: bool): (k: nat)
    ensures k <= |s|
  {
    match p
    case Literal(pat, _) => if pat != [] && pat <= s then |pat| else 0
    case EqualsSpaced =>
      if s == [] || !(IsJavaSpace(s[0]) || s[0] == '=') then 0
      else
        var w := Span(s, JavaSpace);
        if w < |s| && s[w] == '=' then w + 1 + Span(s[w + 1..], JavaSpace) else 0
    case SpaceRun => if s == [] || !IsJavaSpace(s[0]) then 0 else Span(s, JavaSpace)
    case DigitX => if |s| >= 2 && IsAsciiDigit(s[0]) && s[1] == 'x' then 2 else 0
    case DigitYOfX => if |s| >= 5 && IsAsciiDigit(s[0]) && s[1..5] == "y(x)" then 5 else 0
    case XYOfX => if "xy(x)" <= s then 5 else 0
    case XSpacedYOfX =>
      if |s| >= 1 && s[0] == 'x' && "y(x)" <= s[1 + Span(s[1..], JavaSpace)..]
      then 1 + Span(s[1..], JavaSpace) + 4 else 0
    case VarPower(v) =>
      if !prevWord && |s| >= 2 && s[0] == v && Span(s[1..], Digit) >= 1 && AtWordEnd(s, 1 + Span(s[1..], Digit))
      then 1 + Span(s[1..], Digit) else 0
    case DigitVar =>
      if |s| >= 2 && IsAsciiDigit(s[0]) && IsXY(s[1]) && AtWordEnd(s, 2) then 2 else 0
    case VarSpacedVar(a, b) =>
      if !prevWord && |s| >= 2 && s[0] == a && 1 + Span(s[1..], PySpace) < |s|
         && s[1 + Span(s[1..], PySpace)] == b && AtWordEnd(s, 2 + Span(s[1..], PySpace))
      then 2 + Span(s[1..], PySpace) else 0
    case VarVar(a, b) =>
      if !prevWord && |s| >= 2 && s[0] == a && s[1] == b && AtWordEnd(s, 2) then 2 else 0
    case ParenVar =>
      if |s| >= 2 && s[0] == ')' && IsXY(s[1]) && AtWordEnd(s, 2) then 2 else 0
    case ParenDiff =>
      if |s| >= 3 && s[0] == ')' && s[1] == 'd' && IsXY(s[2]) && AtWordEnd(s, 3) then 3 else 0
    case VarDiff =>
      if !prevWord && |s| >= 3 && IsXY(s[0]) && s[1] == 'd' && IsXY(s[2]) && AtWordEnd(s, 3) then 3 else 0
    case YPrimes =>
      if |s| >= 2 && s[0] == 'y' && Span(s[1..], Prime) >= 1 then 1 + Span(s[1..], Prime) else 0
    case BareY =>
      if !prevWord && |s| >= 1 && s[0] == 'y' && AtWordEnd(s, 1) && !ParenAhead(s[1..]) then 1 else 0
  }

  /** The text SymPy reads for `y` with `n` primes: `diff(y(x),x)` for one,
      `diff(y(x),x,n)` for more. */
  function Derivative(n: nat): string {
    if n <= 1 then "diff(y(x),x)" else "diff(y(x),x," + NatToString(n) + ")"
  }

  /** The replacement text for a match `m` of `p` (group references resolved). */
  function Substitute(p: Pattern, m: string): string
    requires m != []
  {
    match p
    case Literal(_, rep) => rep
    case EqualsSpaced => "="
    case SpaceRun => " "
    case DigitX => [m[0]] + "*" + m[1..]
    case DigitYOfX => [m[0]] + "*" + m[1..]
    case XYOfX => "x*y(x)"
    case XSpacedYOfX => "x*y(x)"
    case VarPower(v) => [v] + "**" + m[1..]
    case DigitVar => [m[0]] + "*" + m[1..]
    case VarSpacedVar(a, b) => [a, '*', b]
    case VarVar(a, b) => [a, '*', b]
    case ParenVar => ")*" + m[1..]
    case ParenDiff => ")*" + m[1..]
    case VarDiff => [m[0]] + "*" + m[1..]
    case YPrimes => Derivative(|m| - 1)
    case BareY => "y(x)"
  }

  /** Replaces every match of `p` in `s`, scanning from the left: at each
      position either a match starts there, and its replacement is emitted and
      the scan resumes after it, or the character is copied and the scan moves
      on by one. */
  function ReplaceAll(p: Pattern, s: string, prevWord: bool): string
    decreases |s|
  {
    if s == [] then []
    else
      var k := MatchLen(p, s, prevWord);
      if k == 0 then [s[0]] + ReplaceAll(p, s[1..], IsWordChar(s[0]))
      else Substitute(p, s[..k]) + ReplaceAll(p, s[k..], IsWordChar(s[k - 1]))
  }

  /** `ReplaceAll` from the start of a text, where `\b` sees no word before. */
  function Sub(p: Pattern, s: string): string {
    ReplaceAll(p, s, false)
  }
}

module RewriteFacts {
  import opened Chars
  import opened Rewrite

  /** Characters a replacement may contain that need not come from the text it replaces. */
  function Introduced(p: Pattern): set<char> {
    match p
    case Literal(_, rep) => set c | c in rep
    case EqualsSpaced => {}
    case SpaceRun => {' '}
    case YPrimes => set c | c in "diff(y(x),x,)0123456789"
    case BareY => {'(', 'x', ')'}
    case _ => {'*'}
  }

  lemma EqualsSpacedChars(s: string, pw: bool)
    requires MatchLen(EqualsSpaced, s, pw) > 0
    ensures forall c :: c in Substitute(EqualsSpaced, s[..MatchLen(EqualsSpaced, s, pw)]) ==>
              c in s[..MatchLen(EqualsSpaced, s, pw)] || c in Introduced(EqualsSpaced)
  {
    var m := s[..MatchLen(EqualsSpaced, s, pw)];
    assert m[Span(s, JavaSpace)] == '=';
  }

  lemma XSpacedChars(s: string, pw: bool)
    requires MatchLen(XSpacedYOfX, s, pw) > 0
    ensures forall c :: c in Substitute(XSpacedYOfX, s[..MatchLen(XSpacedYOfX, s, pw)]) ==>
              c in s[..MatchLen(XSpacedYOfX, s, pw)] || c in Introduced(XSpacedYOfX)
  {
    var m := s[..MatchLen(XSpacedYOfX, s, pw)];
    var w := Span(s[1..], JavaSpace);
    var t := s[1 + w..];
    assert "y(x)" <= t;
    assert t[0] == 'y' && t[1] == '(' && t[3] == ')';
    assert m[0] == 'x' && m[1 + w] == t[0] && m[2 + w] == t[1] && m[4 + w] == t[3];
  }

  lemma VarSpacedChars(a: char, b: char, s: string, pw: bool)
    requires MatchLen(VarSpacedVar(a, b), s, pw) > 0
    ensures forall c :: c in Substitute(VarSpacedVar(a, b), s[..MatchLen(VarSpacedVar(a, b), s, pw)]) ==>
              c in s[..MatchLen(VarSpacedVar(a, b), s, pw)] || c in Introduced(VarSpacedVar(a, b))
  {
    var k := MatchLen(VarSpacedVar(a, b), s, pw);
    var m := s[..k];
    assert m[0] == a && m[k - 1] == b;
  }

  lemma YPrimesChars(s: string, pw: bool)
    requires MatchLen(YPrimes, s, pw) > 0
    ensures forall c :: c in Substitute(YPrimes, s[..MatchLen(YPrimes, s, pw)]) ==> c in Introduced(YPrimes)
  {
    var k := MatchLen(YPrimes, s, pw);
    if k > 2 {
      var n := NatToString(k - 1);
      assert Substitute(YPrimes, s[..k]) == "diff(y(x),x," + n + ")";
      forall c | c in n ensures c in Introduced(YPrimes) {
        var i :| 0 <= i < |n| && n[i] == c;
        assert IsAsciiDigit(n[i]);
      }
    }
  }

  lemma SubstituteChars(p: Pattern, s: string, pw: bool)
    requires MatchLen(p, s, pw) > 0
    ensures forall c :: c in Substitute(p, s[..MatchLen(p, s, pw)]) ==>
              c in s[..MatchLen(p, s, pw)] || c in Introduced(p)
  {
    var k := MatchLen(p, s, pw);
    var m := s[..k];
    assert m == [m[0]] + m[1..];
    match p
    case Literal(_, _) =>
    case EqualsSpaced =>
      EqualsSpacedChars(s, pw);
    case SpaceRun =>
    case DigitX =>
    case DigitYOfX =>
    case XYOfX =>
      assert m == "xy(x)";
    case XSpacedYOfX =>
      XSpacedChars(s, pw);
    case VarPower(_) =>
    case DigitVar =>
    case VarSpacedVar(a, b) =>
      VarSpacedChars(a, b, s, pw);
    case VarVar(a, b) =>
      assert m[0] == a && m[1] == b;
    case ParenVar =>
    case ParenDiff =>
    case VarDiff =>
    case YPrimes =>
      YPrimesChars(s, pw);
    case BareY =>
  }

  /** Every character of the result was in the input or is one the pattern's
      replacement introduces. */
  lemma {:induction false} ReplaceAllChars(p: Pattern, s: string, pw: bool)
    ensures forall c :: c in ReplaceAll(p, s, pw) ==> c in s || c in Introduced(p)
    decreases |s|
  {
    if s != [] {
      var k := MatchLen(p, s, pw);
      if k == 0 {
        ReplaceAllChars(p, s[1..], IsWordChar(s[0]));
        assert forall c :: c in s[1..] ==> c in s;
      } else {
        SubstituteChars(p, s, pw);
        ReplaceAllChars(p, s[k..], IsWordChar(s[k - 1]));
        assert forall c :: c in s[k..] ==> c in s;
        assert forall c :: c in s[..k] ==> c in s;
      }
    }
  }

  /** Replacing a single character by a text that does not contain it leaves no
      occurrence of that character. */
  lemma {:induction false} ReplaceAllRemoves(ch: char, rep: string, s: string, pw: bool)
    requires ch !in rep
    ensures ch !in ReplaceAll(Literal([ch], rep), s, pw)
    decreases |s|
  {
    if s != [] {
      var k := MatchLen(Literal([ch], rep), s, pw);
      if k == 0 {
        assert s[0] != ch;
        ReplaceAllRemoves(ch, rep, s[1..], IsWordChar(s[0]));
      } else {
        ReplaceAllRemoves(ch, rep, s[k..], IsWordChar(s[k - 1]));
      }
    }
  }

  /** `s` with every `a` turned into `b`. */
  function Translate(s: string, a: char, b: char): (r: string)
    ensures |r| == |s|
    ensures forall i :: 0 <= i < |s| ==> r[i] == if s[i] == a then b else s[i]
  {
    seq(|s|, i requires 0 <= i < |s| => if s[i] == a then b else s[i])
  }

  /** Replacing one character by one character is a character-wise translation. */
  lemma {:induction false} ReplaceCharIsTranslate(a: char, b: char, s: string, pw: bool)
    ensures ReplaceAll(Literal([a], [b]), s, pw) == Translate(s, a, b)
    decreases |s|
  {
    if s != [] {
      ReplaceCharStep(a, b, s, pw);
      TranslateCons(s, a, b);
      ReplaceCharIsTranslate(a, b, s[1..], IsWordChar(s[0]));
    }
  }

  /** One character of the scan for a one-character literal. */
  lemma ReplaceCharStep(a: char, b: char, s: string, pw: bool)
    requires s != []
    ensures ReplaceAll(Literal([a], [b]), s, pw)
         == [if s[0] == a then b else s[0]] + ReplaceAll(Literal([a], [b]), s[1..], IsWordChar(s[0]))
  {
    var p := Literal([a], [b]);
    if s[0] == a {
      assert [a] <= s;
      assert MatchLen(p, s, pw) == 1;
    } else {
      NoMatch(p, s, pw);
      CopyStep(p, s, pw);
    }
  }

  lemma TranslateCons(s: string, a: char, b: char)
    requires s != []
    ensures Translate(s, a, b) == [if s[0] == a then b else s[0]] + Translate(s[1..], a, b)
  {
  }

  /** The first piece `ReplaceAll` emits: the replacement of a match at the
      start, or the first character copied. */
  function Piece(p: Pattern, s: string, pw: bool): string
    requires s != []
  {
    if MatchLen(p, s, pw) == 0 then [s[0]] else Substitute(p, s[..MatchLen(p, s, pw)])
  }

  /** How far the scan advances past the first piece. */
  function Step(p: Pattern, s: string, pw: bool): (n: nat)
    requires s != []
    ensures 1 <= n <= |s|
  {
    if MatchLen(p, s, pw) == 0 then 1 else MatchLen(p, s, pw)
  }

  /** Where no match starts, the first piece is the first character. */
  lemma PieceCopy(p: Pattern, s: string, pw: bool)
    requires s != [] && MatchLen(p, s, pw) == 0
    ensures Step(p, s, pw) == 1 && Piece(p, s, pw) == [s[0]]
  {
  }

  /** Where a match starts, the first piece is its replacement. */
  lemma PieceMatch(p: Pattern, s: string, pw: bool)
    requires s != [] && MatchLen(p, s, pw) > 0
    ensures Step(p, s, pw) == MatchLen(p, s, pw)
    ensures Piece(p, s, pw) == Substitute(p, s[..MatchLen(p, s, pw)])
  {
  }

  lemma ReplaceAllStep(p: Pattern, s: string, pw: bool)
    requires s != []
    ensures ReplaceAll(p, s, pw) == Piece(p, s, pw) + ReplaceAll(p, s[Step(p, s, pw)..], IsWordChar(s[Step(p, s, pw) - 1]))
  {
    var k := MatchLen(p, s, pw);
    if k == 0 {
      PieceCopy(p, s, pw);
      CopyStep(p, s, pw);
    } else {
      PieceMatch(p, s, pw);
      assert s[..k] + s[k..] == s;
      MatchPrefix(p, s[..k], s[k..], pw);
    }
  }

  /** The characters a match of `p` can begin with. */
  predicate CanStart(p: Pattern, c: char) {
    match p
    case Literal(pat, _) => pat != [] && c == pat[0]
    case EqualsSpaced => IsJavaSpace(c) || c == '='
    case SpaceRun => IsJavaSpace(c)
    case DigitX => IsAsciiDigit(c)
    case DigitYOfX => IsAsciiDigit(c)
    case XYOfX => c == 'x'
    case XSpacedYOfX => c == 'x'
    case VarPower(v) => c == v
    case DigitVar => IsAsciiDigit(c)
    case VarSpacedVar(a, _) => c == a
    case VarVar(a, _) => c == a
    case ParenVar => c == ')'
    case ParenDiff => c == ')'
    case VarDiff => IsXY(c)
    case YPrimes => c == 'y'
    case BareY => c == 'y'
  }

  lemma MatchStart(p: Pattern, s: string, pw: bool)
    requires MatchLen(p, s, pw) > 0
    ensures CanStart(p, s[0])
  {
  }

  lemma NoMatch(p: Pattern, s: string, pw: bool)
    requires s != [] && !CanStart(p, s[0])
    ensures MatchLen(p, s, pw) == 0
  {
    if MatchLen(p, s, pw) > 0 {
      MatchStart(p, s, pw);
    }
  }

  /** Where no match starts, the first character is copied. */
  lemma CopyStep(p: Pattern, s: string, pw: bool)
    requires s != [] && MatchLen(p, s, pw) == 0
    ensures ReplaceAll(p, s, pw) == [s[0]] + ReplaceAll(p, s[1..], IsWordChar(s[0]))
  {
  }

  /** Where a match `m` starts, its replacement is emitted. */
  lemma MatchPrefix(p: Pattern, m: string, b: string, pw: bool)
    requires m != [] && MatchLen(p, m + b, pw) == |m|
    ensures ReplaceAll(p, m + b, pw) == Substitute(p, m) + ReplaceAll(p, b, IsWordChar(m[|m| - 1]))
  {
    var s := m + b;
    assert s[..|m|] == m && s[|m|..] == b && s[|m| - 1] == m[|m| - 1];
  }

  /** Whether the character before the rest of the text, after `a`, is a word character. */
  function After(a: string, pw: bool): bool {
    if a == [] then pw else IsWordChar(a[|a| - 1])
  }

  /** A first character that cannot begin a match is copied. */
  lemma CopyFirst(p: Pattern, a: string, b: string, pw: bool)
    requires a != [] && !CanStart(p, a[0])
    ensures ReplaceAll(p, a + b, pw) == [a[0]] + ReplaceAll(p, a[1..] + b, IsWordChar(a[0]))
  {
    NoMatch(p, a + b, pw);
    CopyStep(p, a + b, pw);
    assert (a + b)[1..] == a[1..] + b;
  }

  /** Putting the head back in front of the tail, with a text after both. */
  lemma ConsConcat(a: string, t: string)
    requires a != []
    ensures [a[0]] + (a[1..] + t) == a + t
  {
    assert a == [a[0]] + a[1..];
  }

  /** A prefix none of whose characters can begin a match is copied unchanged. */
  lemma {:induction false} InertPrefix(p: Pattern, a: string, b: string, pw: bool)
    requires forall i :: 0 <= i < |a| ==> !CanStart(p, a[i])
    ensures ReplaceAll(p, a + b, pw) == a + ReplaceAll(p, b, After(a, pw))
    decreases |a|
  {
    if a == [] {
      assert a + b == b;
    } else {
      var rest := a[1..];
      var w := IsWordChar(a[0]);
      CopyFirst(p, a, b, pw);
      InertPrefix(p, rest, b, w);
      assert After(rest, w) == After(a, pw);
      ConsConcat(a, ReplaceAll(p, b, After(a, pw)));
    }
  }

  /** A text none of whose characters can begin a match is left unchanged. */
  lemma Inert(p: Pattern, s: string, pw: bool)
    requires forall i :: 0 <= i < |s| ==> !CanStart(p, s[i])
    ensures ReplaceAll(p, s, pw) == s
  {
    InertPrefix(p, s, [], pw);
    assert s + [] == s;
  }

  /** Number of occurrences of `c` in `s`. */
  function Occurrences(s: string, c: char): nat {
    if s == [] then 0 else (if s[0] == c then 1 else 0) + Occurrences(s[1..], c)
  }

  lemma {:induction false} OccurrencesAbsent(s: string, c: char)
    requires c !in s
    ensures Occurrences(s, c) == 0
    decreases |s|
  {
    if s != [] {
      OccurrencesAbsent(s[1..], c);
    }
  }

  lemma {:induction false} OccurrencesConcat(a: string, b: string, c: char)
    ensures Occurrences(a + b, c) == Occurrences(a, c) + Occurrences(b, c)
    decreases |a|
  {
    if a == [] {
      assert a + b == b;
    } else {
      assert (a + b)[1..] == a[1..] + b;
      OccurrencesConcat(a[1..], b, c);
    }
  }

  /** When the pattern keeps the number of occurrences of `c` in every match. */
  predicate CountNeutral(p: Pattern, c: char) {
    match p
    case Literal(pat, rep) => c !in pat && c !in rep
    case EqualsSpaced => !IsJavaSpace(c)
    case SpaceRun => !IsJavaSpace(c)
    case XSpacedYOfX => c != '*' && !IsJavaSpace(c)
    case VarSpacedVar(_, _) => c != '*' && !IsPySpace(c)
    case YPrimes => false
    case BareY => false
    case _ => c != '*'
  }

  /** A text whose characters all lie in `cls` holds no `c` outside `cls`. */
  lemma {:induction false} RunHasNone(t: string, cls: CharClass, c: char)
    requires forall i :: 0 <= i < |t| ==> InClass(t[i], cls)
    requires !InClass(c, cls)
    ensures Occurrences(t, c) == 0
    decreases |t|
  {
    if t != [] {
      RunHasNone(t[1..], cls, c);
    }
  }

  /** `[h] + t` counted from its head. */
  lemma OccurrencesCons(h: char, t: string, c: char)
    ensures Occurrences([h] + t, c) == (if h == c then 1 else 0) + Occurrences(t, c)
  {
    assert ([h] + t)[1..] == t;
  }

  lemma EqualsSpacedCount(s: string, pw: bool, c: char)
    requires MatchLen(EqualsSpaced, s, pw) > 0
    requires !IsJavaSpace(c)
    ensures Occurrences(s[..MatchLen(EqualsSpaced, s, pw)], c) == (if c == '=' then 1 else 0)
  {
    var w := Span(s, JavaSpace);
    var t := s[w + 1..];
    var m := s[..MatchLen(EqualsSpaced, s, pw)];
    assert m == s[..w] + ([s[w]] + t[..Span(t, JavaSpace)]);
    OccurrencesConcat(s[..w], [s[w]] + t[..Span(t, JavaSpace)], c);
    OccurrencesCons(s[w], t[..Span(t, JavaSpace)], c);
    RunHasNone(s[..w], JavaSpace, c);
    RunHasNone(t[..Span(t, JavaSpace)], JavaSpace, c);
  }

  lemma SpacedPairCount(m: string, cls: CharClass, c: char)
    requires |m| >= 2
    requires forall i :: 1 <= i < |m| - 1 ==> InClass(m[i], cls)
    requires !InClass(c, cls)
    ensures Occurrences(m, c) == Occurrences([m[0], m[|m| - 1]], c)
  {
    var mid := m[1..|m| - 1];
    assert m == [m[0]] + (mid + [m[|m| - 1]]);
    OccurrencesCons(m[0], mid + [m[|m| - 1]], c);
    OccurrencesConcat(mid, [m[|m| - 1]], c);
    RunHasNone(mid, cls, c);
    OccurrencesCons(m[0], [m[|m| - 1]], c);
  }

  /** Inserting one `*` after the first character. */
  lemma StarAfterHeadCount(m: string, c: char)
    requires m != [] && c != '*'
    ensures Occurrences([m[0]] + "*" + m[1..], c) == Occurrences(m, c)
  {
    assert [m[0]] + "*" + m[1..] == [m[0]] + (['*'] + m[1..]);
    assert m == [m[0]] + m[1..];
    OccurrencesCons(m[0], ['*'] + m[1..], c);
    OccurrencesCons('*', m[1..], c);
    OccurrencesCons(m[0], m[1..], c);
  }

  lemma XSpacedCount(s: string, pw: bool, c: char)
    requires MatchLen(XSpacedYOfX, s, pw) > 0
    requires c != '*' && !IsJavaSpace(c)
    ensures Occurrences(Substitute(XSpacedYOfX, s[..MatchLen(XSpacedYOfX, s, pw)]), c)
         == Occurrences(s[..MatchLen(XSpacedYOfX, s, pw)], c)
  {
    var w := Span(s[1..], JavaSpace);
    var gap := s[1..][..w];
    var m := s[..MatchLen(XSpacedYOfX, s, pw)];
    assert m == [s[0]] + (gap + "y(x)");
    OccurrencesCons(s[0], gap + "y(x)", c);
    OccurrencesConcat(gap, "y(x)", c);
    RunHasNone(gap, JavaSpace, c);
  }

  lemma VarSpacedCount(a: char, b: char, s: string, pw: bool, c: char)
    requires MatchLen(VarSpacedVar(a, b), s, pw) > 0
    requires c != '*' && !IsPySpace(c)
    ensures Occurrences(Substitute(VarSpacedVar(a, b), s[..MatchLen(VarSpacedVar(a, b), s, pw)]), c)
         == Occurrences(s[..MatchLen(VarSpacedVar(a, b), s, pw)], c)
  {
    var w := Span(s[1..], PySpace);
    var m := s[..MatchLen(VarSpacedVar(a, b), s, pw)];
    assert |m| == w + 2;
    forall i | 1 <= i < |m| - 1
      ensures InClass(m[i], PySpace)
    {
      assert m[i] == s[1..][i - 1];
    }
    SpacedPairCount(m, PySpace, c);
    assert [m[0], m[|m| - 1]] == [a, b];
    StarAfterHeadCount([a, b], c);
    assert [a] + "*" + [b] == [a, '*', b];
  }

  lemma VarPowerCount(v: char, s: string, pw: bool, c: char)
    requires MatchLen(VarPower(v), s, pw) > 0
    requires c != '*'
    ensures Occurrences(Substitute(VarPower(v), s[..MatchLen(VarPower(v), s, pw)]), c)
         == Occurrences(s[..MatchLen(VarPower(v), s, pw)], c)
  {
    var m := s[..MatchLen(VarPower(v), s, pw)];
    var once := [m[0]] + "*" + m[1..];
    StarAfterHeadCount(m, c);
    assert once[1..] == "*" + m[1..];
    assert [v] + "**" + m[1..] == [m[0]] + (['*'] + once[1..]);
    OccurrencesCons(m[0], ['*'] + once[1..], c);
    OccurrencesCons('*', once[1..], c);
    assert once == [m[0]] + once[1..];
    OccurrencesCons(m[0], once[1..], c);
  }

  lemma VarVarCount(a: char, b: char, s: string, pw: bool, c: char)
    requires MatchLen(VarVar(a, b), s, pw) > 0
    requires c != '*'
    ensures Occurrences(Substitute(VarVar(a, b), s[..MatchLen(VarVar(a, b), s, pw)]), c)
         == Occurrences(s[..MatchLen(VarVar(a, b), s, pw)], c)
  {
    assert s[..MatchLen(VarVar(a, b), s, pw)] == [a, b];
    StarAfterHeadCount([a, b], c);
    assert [a] + "*" + [b] == [a, '*', b];
  }

  lemma SubstituteCount(p: Pattern, s: string, pw: bool, c: char)
    requires MatchLen(p, s, pw) > 0
    requires CountNeutral(p, c)
    ensures Occurrences(Substitute(p, s[..MatchLen(p, s, pw)]), c) == Occurrences(s[..MatchLen(p, s, pw)], c)
  {
    var k := MatchLen(p, s, pw);
    var m := s[..k];
    match p
    case Literal(pat, rep) =>
      assert m == pat;
      OccurrencesAbsent(pat, c);
      OccurrencesAbsent(rep, c);
    case EqualsSpaced =>
      EqualsSpacedCount(s, pw, c);
    case SpaceRun =>
      RunHasNone(m, JavaSpace, c);
    case XSpacedYOfX =>
      XSpacedCount(s, pw, c);
    case VarSpacedVar(a, b) =>
      VarSpacedCount(a, b, s, pw, c);
    case DigitX =>
      StarAfterHeadCount(m, c);
    case DigitYOfX =>
      StarAfterHeadCount(m, c);
    case XYOfX =>
      assert m == "xy(x)";
    case VarPower(v) =>
      VarPowerCount(v, s, pw, c);
    case DigitVar =>
      StarAfterHeadCount(m, c);
    case VarVar(a, b) =>
      VarVarCount(a, b, s, pw, c);
    case ParenVar =>
      StarAfterHeadCount(m, c);
    case ParenDiff =>
      StarAfterHeadCount(m, c);
    case VarDiff =>
      StarAfterHeadCount(m, c);
  }

  /** A pattern that keeps the count of `c` in every match keeps it in the whole text. */
  /** The first piece keeps the count of `c` in the text it stands for. */
  lemma PieceCount(p: Pattern, s: string, pw: bool, c: char)
    requires s != [] && CountNeutral(p, c)
    ensures Occurrences(Piece(p, s, pw), c) == Occurrences(s[..Step(p, s, pw)], c)
  {
    if MatchLen(p, s, pw) > 0 {
      PieceMatch(p, s, pw);
      SubstituteCount(p, s, pw, c);
    } else {
      PieceCopy(p, s, pw);
      assert Piece(p, s, pw) == s[..1];
    }
  }

  /** Counting over a text cut in two. */
  lemma OccurrencesSplit(s: string, k: nat, c: char)
    requires k <= |s|
    ensures Occurrences(s, c) == Occurrences(s[..k], c) + Occurrences(s[k..], c)
  {
    assert s == s[..k] + s[k..];
    OccurrencesConcat(s[..k], s[k..], c);
  }

  /** A pattern that keeps the count of `c` in every match keeps it in the whole text. */
  lemma {:induction false} ReplaceAllCount(p: Pattern, s: string, pw: bool, c: char)
    requires CountNeutral(p, c)
    ensures Occurrences(ReplaceAll(p, s, pw), c) == Occurrences(s, c)
    decreases |s|
  {
    if s != [] {
      var step := Step(p, s, pw);
      var rest := ReplaceAll(p, s[step..], IsWordChar(s[step - 1]));
      ReplaceAllStep(p, s, pw);
      ReplaceAllCount(p, s[step..], IsWordChar(s[step - 1]), c);
      PieceCount(p, s, pw, c);
      OccurrencesConcat(Piece(p, s, pw), rest, c);
      OccurrencesSplit(s, step, c);
    }
  }

  /** `s` with every `*` and every whitespace character (Python's `\s`, which
      includes the ASCII space) deleted. */
  function Strip(s: string): string {
    if s == [] then [] else (if s[0] == '*' || IsPySpace(s[0]) then [] else [s[0]]) + Strip(s[1..])
  }

  lemma {:induction false} StripConcat(a: string, b: string)
    ensures Strip(a + b) == Strip(a) + Strip(b)
    decreases |a|
  {
    if a == [] {
      assert a + b == b;
    } else {
      assert (a + b)[1..] == a[1..] + b;
      StripConcat(a[1..], b);
    }
  }

  /** The patterns whose replacements only insert `*` and drop whitespace. */
  predicate OnlyInsertsStars(p: Pattern) {
    match p
    case Literal(pat, rep) => Strip(pat) == Strip(rep)
    case VarPower(_) => true
    case DigitVar => true
    case VarSpacedVar(_, _) => true
    case VarVar(_, _) => true
    case ParenVar => true
    case ParenDiff => true
    case VarDiff => true
    case _ => false
  }

  lemma StripRun(t: string)
    requires forall i :: 0 <= i < |t| ==> IsPySpace(t[i])
    ensures Strip(t) == []
  {
    if t != [] {
      StripRun(t[1..]);
    }
  }

  lemma StarAfterHeadStrip(m: string)
    requires m != []
    ensures Strip([m[0]] + "*" + m[1..]) == Strip(m)
  {
    assert [m[0]] + "*" + m[1..] == [m[0]] + ("*" + m[1..]);
    StripConcat([m[0]], "*" + m[1..]);
    assert ("*" + m[1..])[1..] == m[1..];
    assert m == [m[0]] + m[1..];
    StripConcat([m[0]], m[1..]);
  }

  lemma PowerStrip(m: string, v: char)
    requires m != [] && m[0] == v
    ensures Strip([v] + "**" + m[1..]) == Strip(m)
  {
    assert [v] + "**" + m[1..] == ([v] + "*") + ("*" + m[1..]);
    StripConcat([v] + "*", "*" + m[1..]);
    assert ("*" + m[1..])[1..] == m[1..];
    StarAfterHeadStrip(m);
    assert [m[0]] + "*" + m[1..] == ([v] + "*") + m[1..];
    StripConcat([v] + "*", m[1..]);
  }

  lemma PairStrip(m: string, a: char, b: char)
    requires |m| >= 2 && m[0] == a && m[|m| - 1] == b
    requires forall i :: 1 <= i < |m| - 1 ==> IsPySpace(m[i])
    ensures Strip([a, '*', b]) == Strip(m)
  {
    var mid := m[1..|m| - 1];
    StripRun(mid);
    assert m == [a] + (mid + [b]);
    StripConcat([a], mid + [b]);
    StripConcat(mid, [b]);
    assert [a, '*', b] == [a] + (['*'] + [b]);
    StripConcat([a], ['*'] + [b]);
    StripConcat(['*'], [b]);
    assert Strip(['*']) == [];
  }

  lemma SubstituteStrip(p: Pattern, s: string, pw: bool)
    requires MatchLen(p, s, pw) > 0
    requires OnlyInsertsStars(p)
    ensures Strip(Substitute(p, s[..MatchLen(p, s, pw)])) == Strip(s[..MatchLen(p, s, pw)])
  {
    var k := MatchLen(p, s, pw);
    var m := s[..k];
    match p
    case Literal(pat, _) =>
      assert m == pat;
    case VarPower(v) =>
      PowerStrip(m, v);
    case DigitVar =>
      StarAfterHeadStrip(m);
    case VarSpacedVar(a, b) =>
      var w := Span(s[1..], PySpace);
      assert k == 2 + w;
      assert forall i :: 1 <= i < k - 1 ==> m[i] == s[1..][i - 1];
      PairStrip(m, a, b);
    case VarVar(a, b) =>
      PairStrip(m, a, b);
    case ParenVar =>
      StarAfterHeadStrip(m);
    case ParenDiff =>
      StarAfterHeadStrip(m);
    case VarDiff =>
      StarAfterHeadStrip(m);
  }

  /** A pattern whose replacements only insert `*` and drop whitespace leaves the
      text unchanged once `*` and whitespace are deleted from both sides. */
  lemma {:induction false} ReplaceAllStrip(p: Pattern, s: string, pw: bool)
    requires OnlyInsertsStars(p)
    ensures Strip(ReplaceAll(p, s, pw)) == Strip(s)
    decreases |s|
  {
    if s != [] {
      var step := Step(p, s, pw);
      ReplaceAllStep(p, s, pw);
      ReplaceAllStrip(p, s[step..], IsWordChar(s[step - 1]));
      if MatchLen(p, s, pw) > 0 {
        SubstituteStrip(p, s, pw);
      } else {
        assert Piece(p, s, pw) == s[..step];
      }
      assert Strip(Piece(p, s, pw)) == Strip(s[..step]);
      StripConcat(Piece(p, s, pw), ReplaceAll(p, s[step..], IsWordChar(s[step - 1])));
      assert s == s[..step] + s[step..];
      StripConcat(s[..step], s[step..]);
    }
  }
}
