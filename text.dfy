/** String operations of the two host languages that the normalisers rely on:
    Kotlin's `trim()`, substring search (`contains`, `in`), and Python's
    `str.split`. */
module Text {
  import opened Chars

  datatype Option<T> = None | Some(value: T)

  /** The set of characters of `s`. */
  function CharsOf(s: string): (r: set<char>)
    ensures forall c :: c in r <==> c in s
  {
    set c | c in s
  }

  /** True when `p` occurs in `s` starting at index `i`. */
  predicate OccursAt(s: string, p: string, i: nat) {
    i + |p| <= |s| && s[i..i + |p|] == p
  }

  /** Index of the first occurrence of `p` in `s`, or None. */
  function IndexOf(s: string, p: string): (r: Option<nat>)
    ensures r.Some? ==> OccursAt(s, p, r.value) && forall j :: 0 <= j < r.value ==> !OccursAt(s, p, j)
    ensures r.None? ==> forall j :: 0 <= j ==> !OccursAt(s, p, j)
    decreases |s|
  {
    if p <= s then Some(0)
    else if s == [] then None
    else
      match IndexOf(s[1..], p)
      case None =>
        assert forall j :: 1 <= j ==> (OccursAt(s, p, j) <==> OccursAt(s[1..], p, j - 1));
        None
      case Some(k) =>
        assert forall j :: 1 <= j ==> (OccursAt(s, p, j) <==> OccursAt(s[1..], p, j - 1));
        Some(k + 1)
  }

  /** Kotlin `s.contains(p)` and Python `p in s`. */
  predicate Contains(s: string, p: string) {
    IndexOf(s, p).Some?
  }

  /** A one-character text occurs exactly when the character does. */
  lemma ContainsChar(s: string, c: char)
    ensures Contains(s, [c]) <==> c in s
  {
    if c in s {
      var i :| 0 <= i < |s| && s[i] == c;
      assert OccursAt(s, [c], i);
    }
    if Contains(s, [c]) {
      var i := IndexOf(s, [c]).value;
      assert s[i..i + 1] == [c];
      assert s[i] == c;
    }
  }

  /** Kotlin `String.trim()`: drops the leading and the trailing characters for
      which `Char.isWhitespace()` holds. */
  function Trim(s: string): (r: string)
    ensures Span(s, KotlinWhitespace) + |r| <= |s|
    ensures r == s[Span(s, KotlinWhitespace)..Span(s, KotlinWhitespace) + |r|]
    ensures forall i :: Span(s, KotlinWhitespace) + |r| <= i < |s| ==> IsKotlinWhitespace(s[i])
    ensures r != [] ==> !IsKotlinWhitespace(r[0]) && !IsKotlinWhitespace(r[|r| - 1])
  {
    TrimEnd(s[Span(s, KotlinWhitespace)..])
  }

  /** Drops the trailing whitespace of `s`. */
  function TrimEnd(s: string): (r: string)
    ensures |r| <= |s| && r == s[..|r|]
    ensures forall i :: |r| <= i < |s| ==> IsKotlinWhitespace(s[i])
    ensures r != [] ==> !IsKotlinWhitespace(r[|r| - 1])
  {
    if s != [] && IsKotlinWhitespace(s[|s| - 1]) then TrimEnd(s[..|s| - 1]) else s
  }

  /** Python `s.split(sep, 1)` when `sep` occurs: the text before and after the
      first occurrence; None when `sep` does not occur. */
  function SplitOnce(s: string, sep: string): (r: Option<(string, string)>)
    requires sep != []
    ensures r.None? <==> !Contains(s, sep)
    ensures r.Some? ==> s == r.value.0 + sep + r.value.1 && !Contains(r.value.0, sep)
  {
    match IndexOf(s, sep)
    case None => None
    case Some(i) =>
      var before := s[..i];
      assert s == before + sep + s[i + |sep|..];
      assert forall j :: 0 <= j ==> OccursAt(before, sep, j) ==> j < i && OccursAt(s, sep, j);
      Some((before, s[i + |sep|..]))
  }

  /** Python `s.split(sep)` for a non-empty separator: the pieces between the
      non-overlapping occurrences of `sep`, scanned from the left. */
  function SplitAll(s: string, sep: string): (parts: seq<string>)
    requires sep != []
    ensures |parts| >= 1
    decreases |s|
  {
    match SplitOnce(s, sep)
    case None => [s]
    case Some((before, after)) => [before] + SplitAll(after, sep)
  }

  /** Splitting at an occurrence that no earlier one precedes. */
  lemma SplitAtFirst(a: string, sep: string, b: string)
    requires sep != []
    requires forall j :: 0 <= j < |a| ==> !OccursAt(a + sep + b, sep, j)
    ensures SplitOnce(a + sep + b, sep) == Some((a, b))
  {
    var s := a + sep + b;
    assert OccursAt(s, sep, |a|);
    assert s[..|a|] == a && s[|a| + |sep|..] == b;
  }

  /** An occurrence of a two-character separator with distinct characters
      starting inside `a` lies inside `a`. */
  lemma FirstOfTwo(a: string, sep: string, b: string)
    requires |sep| == 2 && sep[0] != sep[1] && !Contains(a, sep)
    ensures forall j :: 0 <= j < |a| ==> !OccursAt(a + sep + b, sep, j)
  {
    var s := a + sep + b;
    forall j | 0 <= j < |a|
      ensures !OccursAt(s, sep, j)
    {
      if j + 2 <= |a| {
        assert s[j..j + 2] == a[j..j + 2];
        assert !OccursAt(a, sep, j);
      } else {
        assert s[j + 1] == sep[0];
      }
    }
  }

  /** An occurrence of a one-character separator starting inside `a` needs
      the character in `a`. */
  lemma FirstOfOne(a: string, c: char, b: string)
    requires c !in a
    ensures forall j :: 0 <= j < |a| ==> !OccursAt(a + [c] + b, [c], j)
  {
    var s := a + [c] + b;
    forall j | 0 <= j < |a|
      ensures !OccursAt(s, [c], j)
    {
      assert s[j] == a[j];
    }
  }
}
