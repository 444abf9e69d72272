/** A routine that rewrites a text through a fixed sequence of whole-text
    rewrites (`s = s.replace(...)`, `s = s.trim()`, `t = re.sub(...)`), and
    what such a sequence keeps. */
module Pipeline {
  import opened Chars
  import opened Text
  import opened Rewrite
  import opened RewriteFacts

  /** One whole-text rewrite: a replacement of every match, or Kotlin's `trim()`. */
  datatype Step = Replace(p: Pattern) | TrimSpace

  function Apply(st: Step, s: string): string {
    match st
    case Replace(p) => Sub(p, s)
    case TrimSpace => Trim(s)
  }

  /** The steps applied in order, each to the result of the one before. */
  function Run(steps: seq<Step>, s: string): string
    decreases |steps|
  {
    if steps == [] then s else Run(steps[1..], Apply(steps[0], s))
  }

  // ------------------------------------------------------------- characters

  /** Characters a step may write that need not come from its input. */
  function StepIntroduced(st: Step): set<char> {
    match st
    case Replace(p) => Introduced(p)
    case TrimSpace => {}
  }

  function RunIntroduced(steps: seq<Step>): set<char>
    decreases |steps|
  {
    if steps == [] then {} else StepIntroduced(steps[0]) + RunIntroduced(steps[1..])
  }

  lemma {:induction false} RunIntroducedWithin(steps: seq<Step>, w: set<char>)
    requires forall i :: 0 <= i < |steps| ==> StepIntroduced(steps[i]) <= w
    ensures RunIntroduced(steps) <= w
    decreases |steps|
  {
    if steps != [] {
      RunIntroducedWithin(steps[1..], w);
    }
  }

  lemma StepChars(st: Step, s: string)
    ensures CharsOf(Apply(st, s)) <= CharsOf(s) + StepIntroduced(st)
  {
    match st
    case Replace(p) => ReplaceAllChars(p, s, false);
    case TrimSpace =>
      var a := Span(s, KotlinWhitespace);
      assert Trim(s) == s[a..a + |Trim(s)|];
  }

  /** Every character of the result was in the input or is written by a step. */
  lemma {:induction false} RunChars(steps: seq<Step>, s: string)
    ensures CharsOf(Run(steps, s)) <= CharsOf(s) + RunIntroduced(steps)
    decreases |steps|
  {
    if steps != [] {
      StepChars(steps[0], s);
      RunChars(steps[1..], Apply(steps[0], s));
    }
  }

  /** A step that deletes every `ch` (a one-character literal whose replacement
      lacks it) occurs, and no later step writes `ch`. */
  predicate Removes(steps: seq<Step>, ch: char)
    decreases |steps|
  {
    steps != []
    && ((steps[0].Replace? && steps[0].p.Literal? && steps[0].p.pat == [ch] && ch !in steps[0].p.rep
         && ch !in RunIntroduced(steps[1..]))
        || Removes(steps[1..], ch))
  }

  lemma {:induction false} RunRemoves(steps: seq<Step>, s: string, ch: char)
    requires Removes(steps, ch)
    ensures ch !in Run(steps, s)
    decreases |steps|
  {
    var s1 := Apply(steps[0], s);
    if Removes(steps[1..], ch) {
      RunRemoves(steps[1..], s1, ch);
    } else {
      ReplaceAllRemoves(ch, steps[0].p.rep, s, false);
      RunChars(steps[1..], s1);
    }
  }

  // ------------------------------------------------------------- counting

  /** The step keeps the number of occurrences of `c`. */
  predicate StepCountNeutral(st: Step, c: char) {
    match st
    case Replace(p) => CountNeutral(p, c)
    case TrimSpace => !IsKotlinWhitespace(c)
  }

  lemma StepCount(st: Step, s: string, c: char)
    requires StepCountNeutral(st, c)
    ensures Occurrences(Apply(st, s), c) == Occurrences(s, c)
  {
    match st
    case Replace(p) => ReplaceAllCount(p, s, false, c);
    case TrimSpace => TrimCount(s, c);
  }

  /** Steps that each keep the number of occurrences of `c` keep it together. */
  lemma {:induction false} RunCount(steps: seq<Step>, s: string, c: char)
    requires forall i :: 0 <= i < |steps| ==> StepCountNeutral(steps[i], c)
    ensures Occurrences(Run(steps, s), c) == Occurrences(s, c)
    decreases |steps|
  {
    if steps != [] {
      StepCount(steps[0], s, c);
      RunCount(steps[1..], Apply(steps[0], s), c);
    }
  }

  /** `trim()` keeps every non-whitespace character. */
  lemma TrimCount(s: string, c: char)
    requires !IsKotlinWhitespace(c)
    ensures Occurrences(Trim(s), c) == Occurrences(s, c)
  {
    var a := Span(s, KotlinWhitespace);
    var r := Trim(s);
    var pre, post := s[..a], s[a + |r|..];
    assert s == pre + r + post;
    RunHasNone(pre, KotlinWhitespace, c);
    assert forall i :: 0 <= i < |post| ==> InClass(post[i], KotlinWhitespace);
    RunHasNone(post, KotlinWhitespace, c);
    OccurrencesConcat(pre + r, post, c);
    OccurrencesConcat(pre, r, c);
  }

  // ------------------------------------------------------------- stripping

  /** Steps whose replacements only insert `*` and drop whitespace leave the
      text unchanged once `*` and whitespace are deleted. */
  lemma {:induction false} RunStrip(steps: seq<Step>, s: string)
    requires forall i :: 0 <= i < |steps| ==> steps[i].Replace? && OnlyInsertsStars(steps[i].p)
    ensures Strip(Run(steps, s)) == Strip(s)
    decreases |steps|
  {
    if steps != [] {
      ReplaceAllStrip(steps[0].p, s, false);
      RunStrip(steps[1..], Apply(steps[0], s));
    }
  }
}
